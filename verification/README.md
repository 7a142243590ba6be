# Verified models of the oxitls core

Dafny models of the parts of oxitls that keep state or build bytes by hand, with
proofs of what they promise over every run and every input:

- the PKCS#11 session pool as a concurrent protocol (`SessionPool.dfy`);
- the session-ticket resumption stack: replay guard (`ReplayGuard.dfy`), key
  rotation (`KeyRing.dfy`), the two ticketers (`Ticketer.dfy`,
  `AwsLcRotator.dfy`) and the guard over a rotating ticketer under arbitrary
  interleaving (`AntiReplay.dfy`);
- the LRU cache of intermediate certificates (`LruCache.dfy`);
- the hand-written encoders against strict decoders: DER (`Der.dfy`), ECDSA
  signatures (`EcdsaDer.dfy`), base64 and PEM (`Base64Pem.dfy`), ECHConfigList
  (`EchConfig.dfy`);
- QUIC header protection (`HeaderProtection.dfy`), server-name matching
  (`SniMatch.dfy`) and HPKE labelling (`HpkeLabels.dfy`).

`dafny verify dfyconfig.toml` checks everything.

## Reading the model

- A critical section under a lock is one atomic step. Runs are sequences of such
  steps in the order in which they take effect; calls of different threads
  interleave freely. An event that is not enabled is the identity, so every
  event sequence is a run.
- The clock is read before the replay table's lock is taken, so readings in lock
  order may lag. Theorems carry the lag as a number of seconds; zero is the
  monotonic case that the `Clock` contract asks for.
- SHA-256 is an arbitrary function; collision freedom is a premise only where a
  lemma says so. The cipher is a pair of functions. What the results ask of it is
  that it inverts itself (`LawfulAead`) and that no newer key of the run happens
  to accept the one ciphertext that is presented (`NewerKeysReject`). The law that
  no key accepts anything another key sealed (`SeparatingAead`) is kept for an
  ideal cipher as a corollary only: AES-GCM does not meet it, because for two keys
  some plaintext sealed under one opens under the other.
- Random keys and nonces, clock readings and token answers are parameters, with
  `None` for a failing generator.
- A byte buffer that the program grows is a sequence reassigned step by step; a
  slice changed in place is an array. Casts such as `as u8` are written as
  remainders, and shifts of unsigned values as quotients.
- Session handles of one pool are assumed distinct, as PKCS#11 guarantees for
  open sessions.

## Findings

For each, a lemma states the exact condition for all inputs or runs.

- `acquire` can report exhaustion while a session is already back in the deque:
  every pool has such a run (`ExhaustedWithSessionAvailable`). A report of
  exhaustion finds the deque empty exactly when every live call holds its session
  (`ExhaustedExactlyWhenAllPermitsAreOut`).
- `finalize_signature` passes a raw r||s through unconverted when r starts with
  0x30 (`UnconvertedExample`); `FinalizeYieldsDer` shows that such a result is
  never the right DER, and that every other even-length input within the size
  bound is converted rightly.
- `AwsLcTicketRotator` truncates its interval to whole seconds and clamps it to
  32 bits. Tickets never outlive `lifetime()` exactly for intervals of at most a
  second and for whole seconds whose double fits
  (`TicketsNeverOutliveLifetime`); every other interval has a run in which one
  does (`TicketOutlivesOtherLifetimes`).
- A ticket of `AwsLcTicketRotator` can be refused exactly one interval after it
  was sealed (`RefusedAfterOneInterval`). That is so exactly when it was sealed at
  a tick's instant before that tick and presented at the next tick's instant after
  that tick (`TicketsLiveBetweenOneAndTwoIntervals`); anything sooner opens.
- Reuse after the replay window is called harmless because tickets expire with
  their lifetime (`crates/oxitls/src/anti_replay.rs:11-12`), but no ticketer looks
  at the age of a ticket. Without rotations it is accepted again
  (`TicketAcceptedTwice`); once the window is over it is accepted exactly when at
  most one rotation has succeeded since it was issued
  (`ReuseSucceedsExactlyWhenNotRetired`), so two rotations in time make tickets
  single-use over whole runs (`AcceptedAtMostOnce`).
- `encode_der_length` and the single length octets in `raw_ecdsa_to_der` wrap
  silently; the exact ranges in which the encodings are readable are part of the
  contracts (`LengthRoundTrip`, `RawToDerRoundTrip`).
- An entry under the empty name is documented as a default certificate
  (`crates/oxitls-adapter-pkcs11/src/resolver.rs:120-121`). It is none: a resolver
  with that entry alone has no answer for a name (`EmptyNameExample`), and of the
  requests no other entry is for it answers exactly the one for the empty name
  (`EmptyNameIsNoDefault`).

## Model

| member | source | states |
|---|---|---|
| SessionPool.RunsStayBalanced | crates/oxitls-adapter-pkcs11/src/pool.rs:85-131 | in every interleaving of any number of calls, deque length = free permits + calls between permit and pop + calls between push-back and release; permits plus live calls are the capacity; no call is ever left with a permit and no session |
| SessionPool.ExhaustedExactlyWhenAllPermitsAreOut | crates/oxitls-adapter-pkcs11/src/pool.rs:78-93 | the pop after a granted permit always yields a session; exhaustion is reported exactly when a permit is asked for while `capacity` calls are alive, and then the deque is empty exactly when every live call holds its session |
| SessionPool.ExhaustedWithSessionAvailable | crates/oxitls-adapter-pkcs11/src/pool.rs:122-131 | every non-empty pool has a run in which exhaustion is reported although a session is in the deque |
| SessionPool.RunsConserveSessions | crates/oxitls-adapter-pkcs11/src/pool.rs:56-131 | in every reachable state the deque and the live guards together hold exactly the opened sessions, each in one place |
| SessionPool.NoSessionIsLentTwice | crates/oxitls-adapter-pkcs11/src/pool.rs:95-131 | no session is with two guards, or with a guard and in the deque; with no live call the pool is whole again |
| SessionPool.GrantsFollowReturnOrder | crates/oxitls-adapter-pkcs11/src/pool.rs:90-127 | over every run the grants followed by the queue are the opened sessions followed by the returned ones, so lending is first-returned first-lent |
| SessionPool.OpenSessions | crates/oxitls-adapter-pkcs11/src/pool.rs:56-70 | succeeds exactly when every open and login succeeds, with the sessions in order; otherwise stops at the first refusal |
| SessionPool.Pkcs11SessionPool.constructor | crates/oxitls-adapter-pkcs11/src/pool.rs:72-75 | a new pool holds all sessions and as many permits, and meets the invariant |
| SessionPool.Pkcs11SessionPool.TryAcquirePermit | crates/oxitls-adapter-pkcs11/src/pool.rs:86-88 | takes a permit when one is free, refuses otherwise, and keeps the invariant |
| SessionPool.Pkcs11SessionPool.PopSession | crates/oxitls-adapter-pkcs11/src/pool.rs:90-93 | in any state of the protocol, a call with a permit gets the front session |
| SessionPool.Pkcs11SessionPool.Acquire | crates/oxitls-adapter-pkcs11/src/pool.rs:85-100 | fails exactly when `capacity` calls are alive and then changes nothing; otherwise lends the front session |
| SessionPool.Pkcs11SessionPool.Drop | crates/oxitls-adapter-pkcs11/src/pool.rs:122-131 | returns the session to the back of the deque and only then the permit |
| ReplayGuards.FreshVerdictsAreFarApart | crates/oxitls/src/anti_replay.rs:115-132 | two fresh verdicts for one fingerprint are more than window − d seconds apart when readings lag at most d |
| ReplayGuards.LagBoundIsTight | crates/oxitls/src/anti_replay.rs:115-132 | for every window and every lag up to the window plus one, a run reaches that bound exactly |
| ReplayGuards.TableIsRecentHistory | crates/oxitls/src/anti_replay.rs:121-131 | with non-decreasing readings the lazily pruned table is, after every call, exactly the accepted fingerprints still inside the window with their acceptance times |
| ReplayGuards.ReplayedExactlyWithinWindow | crates/oxitls/src/anti_replay.rs:109-132 | a presentation is a replay exactly when the full history holds an acceptance of that fingerprint at most a window earlier; refused replays never extend it |
| ReplayGuards.ReplayedExactlyWhenRemembered | crates/oxitls/src/anti_replay.rs:115-132 | whatever the readings, a presentation is a replay exactly when an acceptance of its fingerprint was followed by no reading more than a window ahead of it |
| ReplayGuards.ReplayGuard.CheckAndRecord | crates/oxitls/src/anti_replay.rs:115-132 | one critical section of the guard: the verdict and the new table of the run extended by this call, with a replay leaving recorded times alone |
| KeyRings.RingHoldsNewestKeys | crates/oxitls/src/ticketer.rs:127-138 | after any rotations, failed ones included, the state holds exactly the two newest keys |
| KeyRings.OnlyNewestKeysOpen | crates/oxitls/src/ticketer.rs:212-223 | after any rotations any ticket, forged ones included, is answered exactly as the two newest keys of the run do, newest first, and refused when no key of the run opens it |
| KeyRings.TicketsLiveForOneRotation | crates/oxitls/src/ticketer.rs:127-223 | a ticket that opens under the current key and that no newer key of the run accepts opens to its exact plaintext while at most one more rotation has succeeded and is refused from the second on |
| KeyRings.SeparatedTicketsLiveForOneRotation | crates/oxitls/src/ticketer.rs:127-223 | for an ideal cipher that is so of every ticket it seals |
| Ticketers.TicketLayout | crates/oxitls/src/ticketer.rs:143-194 | a sealed ticket is 29 bytes longer than its plaintext, starts with the version and the nonce, and is cut apart into exactly its parts |
| Ticketers.OpeningAnyBytes | crates/oxitls/src/ticketer.rs:166-194 | any bytes cut into version, nonce, ciphertext and 16-byte tag are refused unless the version is 0x01 and otherwise answered by the cipher on exactly those parts and the documented associated data |
| Ticketers.ShortTicketsAreRefused | crates/oxitls/src/ticketer.rs:167-171 | anything under 29 bytes is refused |
| Ticketers.OxiSealerLaws | crates/oxitls/src/ticketer.rs:143-194 | the wire format carries correctness and key separation of the cipher over to tickets |
| Ticketers.OxiTicketRefusal | crates/oxitls/src/ticketer.rs:143-194 | a ticket opens under its own key, and a key that rejects its ciphertext rejects the ticket |
| Ticketers.EncryptWithKey | crates/oxitls/src/ticketer.rs:143-164 | in-place sealing yields a ticket that opens to the plaintext, or nothing when the generator or the cipher fails |
| Ticketers.DecryptWithKey | crates/oxitls/src/ticketer.rs:166-194 | refuses tickets under 29 bytes or of another version and otherwise gives the cipher's answer on the parts at their places; no slice is out of range on any input |
| Ticketers.OxiTicketer.RotateKeys | crates/oxitls/src/ticketer.rs:127-138 | promotes the current key; a failing generator changes nothing |
| Ticketers.OxiTicketer.Encrypt | crates/oxitls/src/ticketer.rs:207-210 | seals with the current key of the run |
| Ticketers.OxiTicketer.Decrypt | crates/oxitls/src/ticketer.rs:212-223 | answers a plaintext exactly when the newest key of the run opens the ticket to it, or refuses it and the key before opens it to that |
| AntiReplay.AcceptedTwiceOnlyAfterLifetime | crates/oxitls/src/anti_replay.rs:196-245 | in every interleaving with rotations, issues and other calls, two accepted presentations of one ticket are more than lifetime − d seconds apart |
| AntiReplay.AcceptedExactlyWhenUnused | crates/oxitls/src/anti_replay.rs:231-245 | with non-decreasing readings a ticket that opened is turned away exactly when its fingerprint was accepted at most one lifetime ago |
| AntiReplay.TurnedAwayExactlyWhenRemembered | crates/oxitls/src/anti_replay.rs:231-245 | whatever the clock does, a ticket that opened is turned away exactly when an acceptance of its fingerprint was followed by no guard reading more than a lifetime ahead of it |
| AntiReplay.OnlyValidatedTicketsAreRecorded | crates/oxitls/src/anti_replay.rs:231-245 | in every reachable state the table holds only fingerprints of tickets that had opened earlier in the run |
| AntiReplay.RefusedTicketsLeaveNoTrace | crates/oxitls/src/anti_replay.rs:231-245 | every later state of a run is the one the run without a refused presentation reaches |
| AntiReplay.IssuedTicketOpens | crates/oxitls/src/ticketer.rs:127-223 | at any point of an interleaved run an issued ticket opens exactly when at most one rotation has succeeded since |
| AntiReplay.AcceptedAtMostOnce | crates/oxitls/src/anti_replay.rs:11-12 | if two rotations succeed before any opening whose guard reading is more than a lifetime, less the lag, after another presentation, the ticket is accepted at most once in the run |
| AntiReplay.ReuseSucceedsExactlyWhenNotRetired | crates/oxitls/src/anti_replay.rs:11-12 | with no acceptance left inside the window a ticket is accepted, with its plaintext, exactly when at most one rotation has succeeded since its issue |
| AntiReplay.TicketAcceptedTwice | crates/oxitls/src/anti_replay.rs:237-245 | for every lifetime a run without rotations accepts one ticket twice |
| AntiReplay.FirstPresentationReturnsPlaintext | crates/oxitls/src/anti_replay.rs:237-245 | a first presentation after at most one successful rotation returns the original plaintext, whatever is interleaved and whatever the clock says |
| AntiReplay.OxiFirstPresentation | crates/oxitls/src/ticketer.rs:143-223 | the same for `OxiTicketer` tickets under the guard, from a cipher that inverts itself and newer keys that reject the one ciphertext |
| AntiReplay.AntiReplayTicketer.constructor | crates/oxitls/src/anti_replay.rs:194-214 | the replay window is the ticket lifetime, and the object is in the state of the run its rotations so far make |
| AntiReplay.AntiReplayTicketer.RotateKeys | crates/oxitls/src/ticketer.rs:127-138 | a rotation of the wrapped ticketer is a rotation event of that run |
| AntiReplay.AntiReplayTicketer.Encrypt | crates/oxitls/src/anti_replay.rs:227-229 | delegates: an issue event of that run, sealed with the current key of the run; nothing happens when the generator fails |
| AntiReplay.AntiReplayTicketer.Decrypt | crates/oxitls/src/anti_replay.rs:237-245 | a refused ticket leaves the guard untouched; otherwise the call is the two sections of the protocol and its result the answer of the guard section in the run so far |
| AwsLcRotator.LifetimeIsTwoWholeIntervals | crates/oxitls-adapter-aws-lc/src/ticketer.rs:119-124 | the exact lifetime of every interval: two below two seconds, then twice the whole seconds of the interval, and the 32-bit maximum exactly from 0x80000000 seconds on |
| AwsLcRotator.LifetimeCoversTwoIntervals | crates/oxitls-adapter-aws-lc/src/ticketer.rs:119-124 | the advertised lifetime covers two intervals exactly for intervals of at most a second and whole seconds whose double fits 32 bits |
| AwsLcRotator.OpeningAnyAwsBytes | crates/oxitls-adapter-aws-lc/src/ticketer.rs:221-237 | any nonce, ciphertext and 16-byte tag are answered by the cipher on exactly those parts |
| AwsLcRotator.ShortAwsTicketsAreRefused | crates/oxitls-adapter-aws-lc/src/ticketer.rs:224-226 | anything under 28 bytes is refused |
| AwsLcRotator.AwsSealerLaws | crates/oxitls-adapter-aws-lc/src/ticketer.rs:190-237 | the wire format carries correctness and key separation of the cipher over to tickets |
| AwsLcRotator.TicketsLiveBetweenOneAndTwoIntervals | crates/oxitls-adapter-aws-lc/src/ticketer.rs:133-149 | with punctual rotations a ticket opens within one interval and never opens more than two intervals later; after exactly one interval it opens if and only if it was sealed between ticks or the tick at the presentation's instant is still to come |
| AwsLcRotator.RefusedAfterOneInterval | crates/oxitls-adapter-aws-lc/src/ticketer.rs:133-149 | for every interval a punctual run refuses a ticket exactly one interval after sealing |
| AwsLcRotator.TicketsNeverOutliveLifetime | crates/oxitls-adapter-aws-lc/src/ticketer.rs:116-149 | for intervals of at most a second and whole seconds whose double fits, no ticket opens more than `lifetime()` seconds after sealing |
| AwsLcRotator.TicketOutlivesOtherLifetimes | crates/oxitls-adapter-aws-lc/src/ticketer.rs:119-149 | for every other interval a punctual run opens a ticket past `lifetime()` |
| AwsLcRotator.AwsTicketIsSealedAt | crates/oxitls-adapter-aws-lc/src/ticketer.rs:190-237 | tickets of this module meet the premise of the timed results when newer keys reject the one ciphertext |
| AwsLcRotator.AwsTicketsNeverOutliveLifetime | crates/oxitls-adapter-aws-lc/src/ticketer.rs:116-237 | so they open within one interval and are refused past `lifetime()` |
| AwsLcRotator.EncryptTicket | crates/oxitls-adapter-aws-lc/src/ticketer.rs:194-214 | yields a ticket 28 bytes longer that opens to the plaintext |
| AwsLcRotator.DecryptTicket | crates/oxitls-adapter-aws-lc/src/ticketer.rs:221-237 | refuses tickets under 28 bytes and otherwise gives the cipher's answer on the parts at their places; no slice is out of range |
| AwsLcRotator.RotatorState.RotateKeys | crates/oxitls-adapter-aws-lc/src/ticketer.rs:69-75 | promotes the current key and counts successes, saturating at 64 bits; a failure changes nothing |
| AwsLcRotator.RotatorState.Decrypt | crates/oxitls-adapter-aws-lc/src/ticketer.rs:256-267 | answers a plaintext exactly when the newest key of the run opens the ticket to it, or refuses it and the key before opens it to that |
| AwsLcRotator.RotateOnTicks | crates/oxitls-adapter-aws-lc/src/ticketer.rs:140-148 | over any ticks the state follows the generator's answers and ignores failures |
| LruCache.CacheIsRecentPrefix | crates/oxitls-webpki-roots/src/intermediate_cache.rs:84-204 | after every run the cache is the first `capacity` entries of the unbounded list ordered by latest insert or touch hit since the last clear |
| LruCache.CachedExactlyWhenRecentlyUsed | crates/oxitls-webpki-roots/src/intermediate_cache.rs:80-142 | a certificate is cached exactly when it was used since the last clear and fewer than `capacity` others were used after it |
| LruCache.CacheStoresLatest | crates/oxitls-webpki-roots/src/intermediate_cache.rs:98-123 | the cache never exceeds its capacity and stores, for exactly its keys, the latest inserted certificate, which hashes to its key |
| LruCache.SmallerCacheIsIncluded | crates/oxitls-webpki-roots/src/intermediate_cache.rs:98-142 | under the same operations a smaller cache's entries are at every step a subsequence, in recency order, of a larger one's |
| LruCache.HitsAreMonotone | crates/oxitls-webpki-roots/src/intermediate_cache.rs:117-142 | every hit in the smaller cache is a hit with the same certificate in the larger |
| LruCache.IntermediateCertCache.Insert | crates/oxitls-webpki-roots/src/intermediate_cache.rs:98-106 | stores and promotes the certificate under its fingerprint and evicts only when full and missing |
| LruCache.IntermediateCertCache.Get | crates/oxitls-webpki-roots/src/intermediate_cache.rs:117-123 | finds exactly the cached fingerprints, with the latest certificate, and changes nothing |
| LruCache.IntermediateCertCache.Touch | crates/oxitls-webpki-roots/src/intermediate_cache.rs:133-142 | on a hit promotes and returns the entry, on a miss changes nothing |
| LruCache.IntermediateCertCache.Clear | crates/oxitls-webpki-roots/src/intermediate_cache.rs:197-204 | empties the cache |
| Der.LengthRoundTrip | crates/oxitls-rcgen/src/cert.rs:19-33 | a strict DER reader recovers the length exactly when it is at most 65535; above that it reads the low sixteen bits, or nothing when they are under 256 |
| Der.LongLengthOctets | crates/oxitls-rcgen/src/cert.rs:28-33 | every length of 256 or more, however large, takes 0x82 and two octets worth its low sixteen bits |
| Der.LengthIsCanonical | crates/oxitls-rcgen/src/cert.rs:19-33 | no other octets read as that length, so the encoding is the shortest form |
| Der.EncodeDerLength | crates/oxitls-rcgen/src/cert.rs:20-33 | appends that encoding to the buffer |
| Der.WholeRoundTrip | crates/oxitls-rcgen/src/cert.rs:54-61 | a tagged element is recovered exactly when its content is at most 65535 bytes and is unreadable otherwise |
| Der.ConcatKeepsItems | crates/oxitls-rcgen/src/cert.rs:63-71 | the items of a SEQUENCE are joined whole and in order |
| Der.EncodeSequence | crates/oxitls-rcgen/src/cert.rs:63-71 | wraps the concatenation of the items under tag 0x30 |
| Der.EncodeAuthorityKeyIdentifier | crates/oxitls-rcgen/src/cert.rs:35-51 | the key identifier is recovered exactly when it has at most 65531 bytes; below 126 bytes the literal octets |
| Der.EncodeAiaOcsp | crates/oxitls-rcgen/src/cert.rs:73-94 | the OCSP object identifier and the URL are recovered exactly when the URL has at most 65517 bytes; the tags and the identifier in literal octets |
| EcdsaDer.RawToDerRoundTrip | crates/oxitls-adapter-pkcs11/src/signer.rs:29-71 | a strict reader of two minimal non-negative INTEGERs gets the same two numbers exactly when their contents take at most 123 octets, which every input of at most 120 bytes meets |
| EcdsaDer.ConversionBytes | crates/oxitls-adapter-pkcs11/src/signer.rs:29-71 | for numbers of any size the output is the minimal contents of the two halves behind literal tags and the low eight bits of each length |
| EcdsaDer.TaggedRawIsNotItsOwnDer | crates/oxitls-adapter-pkcs11/src/signer.rs:462-467 | no raw r‖s starting with 0x30 is a strict encoding of its own halves |
| EcdsaDer.FinalizeYieldsDer | crates/oxitls-adapter-pkcs11/src/signer.rs:458-475 | an ECDSA result reads as r and s exactly when the first byte is not 0x30 and the numbers fit; only odd ECDSA lengths fail; a strict encoding and every RSA signature are kept |
| EcdsaDer.FinalizeSignature | crates/oxitls-adapter-pkcs11/src/signer.rs:462-475 | RSA and inputs starting with 0x30 pass unchanged, other odd lengths are refused with their lengths, other even ones come out as an encoding of their halves exactly when they fit |
| EcdsaDer.UnconvertedExample | crates/oxitls-adapter-pkcs11/src/signer.rs:462-467 | a 64-byte raw signature that comes out unconverted |
| EcdsaDer.FinalizeIsIdempotent | crates/oxitls-adapter-pkcs11/src/signer.rs:462-475 | finalizing an accepted result again changes nothing |
| EcdsaDer.IntContentFacts | crates/oxitls-adapter-pkcs11/src/signer.rs:41-51 | the INTEGER content is non-negative, in the fewest octets, and has the value of the input bytes |
| EcdsaDer.EncodeInt | crates/oxitls-adapter-pkcs11/src/signer.rs:40-60 | the loop and pushes produce that content behind its tag and one length octet |
| EcdsaDer.RawEcdsaToDer | crates/oxitls-adapter-pkcs11/src/signer.rs:29-71 | refuses odd lengths and otherwise produces the encoding the round trip is about |
| Base64Pem.DecodeEncode | crates/oxitls-rcgen/src/cert.rs:887-911 | a strict decoder gives back every byte sequence; the length is 4⌈n/3⌉ and padding stands only in the last two places |
| Base64Pem.DigitTable | crates/oxitls-rcgen/src/cert.rs:888 | the symbols are the 64 characters of the alphabet in order |
| Base64Pem.EncodeExamples | crates/oxitls-rcgen/src/cert.rs:887-911 | the literal padded texts of one, two and three bytes |
| Base64Pem.EncodeDecode | crates/oxitls-rcgen/src/cert.rs:887-911 | no other text decodes to those bytes |
| Base64Pem.ShiftsAndMasks | crates/oxitls-rcgen/src/cert.rs:892-908 | the shifts and masks of the 24-bit group pick the four six-bit values of the three bytes |
| Base64Pem.Base64Encode | crates/oxitls-rcgen/src/cert.rs:887-911 | the chunked loop computes the encoding |
| Base64Pem.BreaksEvery64 | crates/oxitls-rcgen/src/cert.rs:150-152 | lines break after every 64 symbols and at the end, nowhere else |
| Base64Pem.LinesKeepText | crates/oxitls-rcgen/src/cert.rs:150-152 | removing the breaks gives back the text, and there is one break for each 64 symbols begun |
| Base64Pem.KeyPem | crates/oxitls-rcgen/src/cert.rs:145-155 | dropping header, footer and line breaks recovers the base64 text, which decodes to the key; header and footer literal |
| EchConfig.ContentsRoundTrip | crates/oxitls-adapter-rustls-rustcrypto/src/hpke/ech_config.rs:29-82 | a parser recovers every field of the contents layout, each KDF and AEAD identifier included |
| EchConfig.SuitesRoundTrip | crates/oxitls-adapter-rustls-rustcrypto/src/hpke/ech_config.rs:64-67 | the list of cipher suites is recovered as pairs of identifiers |
| EchConfig.ListIsCanonical | crates/oxitls-adapter-rustls-rustcrypto/src/hpke/ech_config.rs:84-104 | no other bytes parse to those fields: every length prefix covers exactly its bytes |
| EchConfig.EncodeContents | crates/oxitls-adapter-rustls-rustcrypto/src/hpke/ech_config.rs:48-82 | fails exactly on a key above 65535 or a name above 255 bytes, with that error; otherwise the layout of the requested fields |
| EchConfig.WrapConfigList | crates/oxitls-adapter-rustls-rustcrypto/src/hpke/ech_config.rs:87-104 | wraps the contents or reports which of the two outer lengths does not fit |
| EchConfig.GenerateConfigList | crates/oxitls-adapter-rustls-rustcrypto/src/hpke/ech_config.rs:48-104 | both steps succeed exactly when the name has at most 255 bytes and key plus name at most 65516, with the error of the first length that does not fit; the parser then gives back every requested field, and the draft's minima are met exactly when key and name are not empty |
| HeaderProtection.ProtectionIsUndone | crates/oxitls-rustcrypto-provider/src/quic.rs:164-231 | removing protection undoes applying it and conversely, for every mask, first byte and packet-number slice |
| HeaderProtection.ExactlyTheProtectedBitsChange | crates/oxitls-rustcrypto-provider/src/quic.rs:176-198 | exactly the bits and packet-number bytes of section 5.4.1 of RFC 9001 change, and none past the length in the plain first byte |
| HeaderProtection.ProtectingTwiceRestoresExactlyWhen | crates/oxitls-rustcrypto-provider/src/quic.rs:186-198 | using the wrong direction restores the header exactly when the mask is zero between the two lengths read |
| HeaderProtection.XorInPlace | crates/oxitls-rustcrypto-provider/src/quic.rs:164-201 | computes that in place; slices above four bytes are refused untouched |
| HeaderProtection.EncryptInPlace | crates/oxitls-rustcrypto-provider/src/quic.rs:209-217 | protects with the mask derived from the sample; a failed mask or a long slice is reported as such and leaves the header untouched |
| HeaderProtection.DecryptInPlace | crates/oxitls-rustcrypto-provider/src/quic.rs:223-231 | unprotects with the mask derived from the sample; a failed mask or a long slice is reported as such and leaves the header untouched |
| SniMatch.WildcardStandsForOneLabel | crates/oxitls-adapter-pkcs11/src/resolver.rs:34-47 | a key matches as a wildcard exactly when it is "*." and a suffix and the name is one non-empty dotless label, a dot and that suffix |
| SniMatch.OnlyOneWildcardMatches | crates/oxitls-adapter-pkcs11/src/resolver.rs:34-47 | a wildcard key matches exactly when it is the name with its non-empty first label starred, so at most one does |
| SniMatch.MatchSni | crates/oxitls-adapter-pkcs11/src/resolver.rs:24-54 | an exact entry wins, else any matching wildcard entry is the answer whatever the key order, else strict mode gives nothing and otherwise the default |
| SniMatch.Lookup | crates/oxitls-adapter-pkcs11/src/resolver.rs:177-195 | the same through the resolver; without a server name strict mode gives nothing and otherwise the default |
| SniMatch.EmptyNameIsNoDefault | crates/oxitls-adapter-pkcs11/src/resolver.rs:120-145 | of the requests no other entry is for, the entry under the empty name answers exactly the one for the empty name |
| SniMatch.EmptyNameIsIgnored | crates/oxitls-adapter-pkcs11/src/resolver.rs:24-54 | for every other request the answer is that of the map without this entry |
| SniMatch.EmptyNameExample | crates/oxitls-adapter-pkcs11/src/resolver.rs:120-145 | a resolver with that entry alone has no certificate for a name or for no name |
| HpkeLabels.ExtractInputsNeverCoincide | crates/oxitls-adapter-rustls-rustcrypto/src/hpke/kdf.rs:20-41 | labelled extract inputs coincide only when suite, label and keying material all do |
| HpkeLabels.ExpandInfosNeverCoincide | crates/oxitls-adapter-rustls-rustcrypto/src/hpke/kdf.rs:131-166 | the same for expand, including the requested length |
| HpkeLabels.SuitesAreSeparated | crates/oxitls-adapter-rustls-rustcrypto/src/hpke/kem.rs:36-41 | KEM and HPKE suite identifiers need no delimiter |
| HpkeLabels.InputsAreSpelledOut | crates/oxitls-adapter-rustls-rustcrypto/src/hpke/kdf.rs:20-166 | both inputs in full, with every label and prefix as the characters of its RFC 9180 name |

## Left out

- The ciphers, hashes, HKDF, key exchange and randomness themselves: foreign primitives, kept abstract with stated laws.
- HKDF evaluation in `key_schedule_base` and `extract_and_expand`: only their input strings are modelled; the outputs are those of HKDF.
- QUIC packet keys and mask derivation: the mask is an arbitrary function of the sample.
- Encapsulation and decapsulation agreement of the KEMs: true only through assumed group algebra.
- Lock poisoning: locks are atomic sections that never poison, so the error paths for poisoned locks do not occur.
- Tick scheduling of the async runtime: rotations are punctual by premise, and a zero interval, which the runtime's timer refuses, is outside it.
- `len`, `is_empty`, `capacity` and `contains` of the certificate cache, and `enabled` and `lifetime` of the ticketers: they read one field.
- The verifier chain, certificate revocation, builders, connectors, acceptors, streams, HTTP/2 wrappers, alert and cipher-suite tables: delegation to other libraries or finite tables.
- ECHConfig extensions are opaque bytes in the parser: the generator always writes an empty list.
- The final pass of a generated ECHConfigList through rustls' own parser: a foreign library.
- PKCS#11 token calls, native certificate stores, key logging, PKCS#12 and CSR parsing: input and output or foreign libraries.
