# ESPressio Security: transport envelopes, protected data, replay windows and key storage

This project models the core of ESPressio Security 0.4.0 and proves what it promises: who can get
a payload delivered, how often, with which metadata, and what key memory holds while threads come
and go. `dafny verify dfyconfig.toml` checks all of it.

## What is modelled

| file | what it holds |
|---|---|
| `Bytes.dfy`, `Bitmap.dfy`, `Buffers.dfy` | words, spans, little-endian coding; the 64-bit operators; growable buffers with the byte writers, readers and the erasing loop |
| `ReplayWindow.dfy` | the sliding window object, its value, and its reference specification, the set of all committed sequences |
| `Aead.dfy`, `TestCipher.dfy` | ciphers, the cipher registry, random sources; the XOR-and-hash test cipher |
| `TransportHeader.dfy` | the 44-byte ESPS header, its two coders and the object code that writes and reads it |
| `TransportSecurity.dfy` | the state machine as functions on values (`TransportModel`), and the object, method by method, proved to compute them (`TransportSecurities`) |
| `TransportProperties.dfy` | single calls: round trips, acceptance, failures, policy |
| `TransportSending.dfy` | `Protect` and `EnsureSessionID` told from outside: every refusal, every byte, every draw |
| `TransportRuns.dfy` | whole runs: at most once, sequences, notifications, failed calls, policy |
| `ExactlyOnce.dfy` | a sender epoch, a reordering and duplicating carrier, and a receiver epoch |
| `DataProtector.dfy` | the 18-byte ESDP header, protected records, rotation, associated data |
| `DataReasons.dfy` | protecting and reading records told from outside: every refusal and every byte |
| `Channel.dfy`, `HonestCarrier.dfy` | any number of nodes and data protectors sharing keys over a hostile carrier |
| `KeyStore.dfy`, `KeyProvider.dfy` | key storage under interleaved threads; the provider, storage and view objects |
| `EndToEnd.dfy` | concrete senders and receivers: the first envelope delivered and replayed, keys from the static provider, and an input for every divergence below |
| `Decorator.dfy` | the glue between application, TransportSecurity and carrier |

Code that updates objects in place is a class. The methods of the window, the registry, the two
protectors and the decorator are proved equal, in every output and every field, to functions on
values, and the theorems are about those functions. The key provider, its storage and its views are
classes whose contracts say directly what happens to entries, owners and bytes; what threads make
of them is proved on the values of `KeyStore.dfy`, which share the entry list functions but are not
proved to be an abstraction of those objects. A long method of the
original is cut in two or three where its straight-line code passes a natural point (session
ready, header written, header read).

## Assumptions

* **Ciphers.** An AEAD cipher is a pair of functions that fill the buffers their callers size.
  Law A (`Aead.Inverts`) says that opening what was sealed gives it back; `TestCipher` shows a
  cipher that satisfies it. Law B (`Channel.LawB`) is ideal authenticity: what opens was sealed
  before with the same key, nonce and associated data. Law B is used only in `Channel.dfy`, and
  `HonestCarrierMeetsLawB` derives it where the carrier injects nothing and keys are bound.
* **Random source.** Its outcomes are an arbitrary script: any call may fail and may write
  anything, zeros and repetitions included.
* **Environment.** Registered ciphers, resolvable keys and the script are given anew for every
  call of a run, so a run may change them between any two calls; so is whether the output buffer
  can be allocated.
* **Key provider.** `TransportSecurity` and `DataProtector` see a map from (key ID, algorithm) to
  bytes. `LookupsLinearize` says that a shared `StaticKeyProvider` is such a map, of the bytes its
  callers added.
* **Integers.** Sequences, identifiers and header fields have their 8, 16, 32 or 64 bits and
  `std::size_t` has 64. The lengths of byte sequences are unbounded. The machine is little-endian: the
  code reads a drawn session in its byte order.
* **Epochs.** A receiver epoch ends with `SetConfig` or `ResetReplayProtection`, a sender epoch
  with `SetConfig`.

## Where code and documentation differ

The model follows the code.

* TRANSPORT_SECURITY.md:89 describes `Disabled` as plaintext receive. A receiver under any policy
  opens a protected envelope that it has cipher and key for: `TransportRoundTrip` has no policy in
  its condition, and `DisabledReceiverOpens` is such a delivery.
* The same line, and line 90, promise plaintext interoperability. Plaintext that begins with the
  four magic bytes does not get through: `PlaintextRoundTrip` gives the exact condition,
  `MagicPlaintextIsLost` an input.
* `Protect` does not refuse key ID zero, `Unprotect` does: `TransportRoundTrip` has the condition,
  `KeyZeroIsSentAndRefused` an input. With the static provider it cannot happen
  (`RoundTripWithStaticKeys`).
* src/ESPressio_ITransportSecurityObserver.hpp:23-33 announces every reset of sequence, session and
  replay state. `SetConfig` never announces the replay reset it performs, and announces a session
  reset if and only if there was a session and it is not kept (`SetConfigAnnounces`); it is silent
  but for the notice of the change if and only if the session stays (`ResetIsSilentIff`, with the
  input `SameSessionResetIsSilent`). Over runs, `NotificationsAreFaithful` counts what is announced.
* `DataProtector` writes nonce, tag and plaintext sizes cut to their fields and reports success.
  Such a record opens if and only if nothing was cut (`DataRoundTrip`); `CutSizeIsSealedAndLost` is
  an input.
* Two branches of `TransportSecurity` are dead: the header size check of `Protect` and the
  read-failure check of `Unprotect` (asserted in `SealInto` and `Unprotect`); so is the magic half
  of the version check (`MagicIsRead`).

## Model

| member | source | states |
|---|---|---|
| ReplayWindows.WindowRefinesSet | src/ESPressio_ReplayWindow.hpp:15-49 | After any history of commits on any mix of domains, `WouldAccept` answers true exactly for packets with non-zero session and sequence that were not committed and lie above the highest committed sequence of their domain less the clamped window size |
| ReplayWindows.AfterRepresents | src/ESPressio_ReplayWindow.hpp:35-49 | The invariant behind it: one state per domain, and bit d of its bitmap is set iff highest - d was committed |
| ReplayWindows.AdvanceDescribes | src/ESPressio_ReplayWindow.hpp:41-48 | One commit, forward or backward, near or 64 and more away, adds exactly its sequence to the set a state describes |
| ReplayWindows.RejectionIsPermanent | src/ESPressio_ReplayWindow.hpp:24-52 | A rejected packet is rejected after every later sequence of commits |
| ReplayWindows.DomainsAreIndependent | src/ESPressio_ReplayWindow.hpp:69-81 | Every answer is the one a window would give that saw only the commits of that domain |
| ReplayWindows.Clamp | src/ESPressio_ReplayWindow.hpp:15-16 | The window size is the requested one, or 1 for zero, or 64 for more |
| ReplayWindows.ReplayWindow.constructor | src/ESPressio_ReplayWindow.hpp:15-16 | A new window is clamped and empty |
| ReplayWindows.ReplayWindow.Find | src/ESPressio_ReplayWindow.hpp:69-81 | The linear search finds the first state of the domain, or the end |
| ReplayWindows.ReplayWindow.WouldAccept | src/ESPressio_ReplayWindow.hpp:24-32 | The query answers as the value of the object does and changes nothing |
| ReplayWindows.ReplayWindow.Commit | src/ESPressio_ReplayWindow.hpp:35-49 | The object's value becomes the recorded one; every shift amount is below 64 |
| ReplayWindows.ReplayWindow.Reset | src/ESPressio_ReplayWindow.hpp:52 | All domains are forgotten, the size stays |
| Bitmap.SlidBit | src/ESPressio_ReplayWindow.hpp:43 | Shifting left by s and setting the low bit moves every mark s further from the highest, drops those beyond 63 and marks distance zero |
| Bitmap.MarkedBit | src/ESPressio_ReplayWindow.hpp:48 | OR with a shifted one marks that distance and no other |
| Bitmap.MaskReadsBit | src/ESPressio_ReplayWindow.hpp:31 | The mask test reads exactly the mark at that distance |
| Aead.RegisterInserts | src/ESPressio_AeadCipherRegistry.hpp:15-19 | Registration keeps algorithms unique, adds an absent one, and never replaces: all other answers stay |
| Aead.UnregisterRemoves | src/ESPressio_AeadCipherRegistry.hpp:22-27 | Unregistration keeps algorithms unique and removes that one alone |
| Aead.AeadCipherRegistry.Find | src/ESPressio_AeadCipherRegistry.hpp:31-34 | The first registered cipher of the algorithm, or none |
| Aead.AeadCipherRegistry.Register | src/ESPressio_AeadCipherRegistry.hpp:15-19 | True iff the algorithm was free; the list grows by the cipher or stays |
| Aead.AeadCipherRegistry.Unregister | src/ESPressio_AeadCipherRegistry.hpp:22-27 | True iff the algorithm was registered; its entry goes |
| TestCipher.LawAIsSatisfiable | tests/test_data_protector.cpp:20-79 | The XOR-and-hash cipher fills its buffers and opens what it sealed: Law A can be met |
| Randomness.RandomSource.Fill | src/ESPressio_IRandomSource.hpp:13-19 | Each fill takes the next outcome: success or failure, and bytes of the requested size |
| Buffers.SecurityBuffer.AppendWord | src/ESPressio_TransportSecurity.hpp:130-142 | The shifting loop appends the little-endian bytes of the word |
| Buffers.SecurityBuffer.WriteWord | src/ESPressio_DataProtector.hpp:205-214 | The pointer loop overwrites exactly the field and leaves all other bytes |
| Buffers.ReadWord | src/ESPressio_TransportSecurity.hpp:144-161 | Fails exactly past the end of the input, without moving; else the OR of shifted bytes is the little-endian value and the offset advances by the width |
| Buffers.SecurityBuffer.SecureErase | src/ESPressio_TransportSecurity.hpp:123-128 | The memory given up held zeros only, and the buffer is empty |
| Bytes.DecodeEncode | src/ESPressio_TransportSecurity.hpp:130-161 | Reading a written word gives it back, at every width that holds it |
| Bytes.EncodeDecode | src/ESPressio_TransportSecurity.hpp:130-161 | Writing a read word gives the same bytes back |
| Bytes.ByteOfWord | src/ESPressio_TransportSecurity.hpp:136-142 | Byte i of the encoding is the low byte of the word shifted right by 8 i bits |
| Bitmap.ByteAbove | src/ESPressio_TransportSecurity.hpp:152-161 | OR with a byte shifted past those already read does not overlap and does not overflow: it is their sum |
| TransportHeader.DecodeInvertsEncode | src/ESPressio_TransportSecurity.hpp:268-287 | The 44 written bytes, whatever follows, are read back to the same thirteen fields |
| TransportHeader.EncodeInvertsDecode | src/ESPressio_TransportSecurity.hpp:338-349 | For any input of 44 bytes or more, writing the fields read, flags and reserved included, gives the same 44 bytes |
| TransportHeader.HeaderBytesAreInjective | TRANSPORT_SECURITY.md:44 | Two authenticated headers are the same bytes iff they agree in every field |
| TransportHeader.MagicBytes | src/ESPressio_TransportSecurity.hpp:419-425 | An input looks protected iff it starts with the ASCII bytes ESPS |
| TransportHeader.FieldsAt | TRANSPORT_SECURITY.md:26-42 | Every header field lies at its documented offset in its documented width, least significant byte first |
| TransportHeader.WriteHeader | src/ESPressio_TransportSecurity.hpp:270-282 | The sequence of appends writes the encoded header, 44 bytes, in field order |
| TransportHeader.ReadHeader | src/ESPressio_TransportSecurity.hpp:343-349 | The sequence of reads succeeds iff there are 44 bytes, and then yields every field |
| TransportSecurities.TransportSecurity.constructor | src/ESPressio_TransportSecurity.hpp:164-175 | Empty clamped window, sequence 1, session ready iff configured |
| TransportSecurities.TransportSecurity.EnsureSessionID | src/ESPressio_TransportSecurity.hpp:102-121 | Keeps a ready session, else takes the configured one, else the first non-zero of at most four draws, and announces it; stops at the first failed draw |
| TransportSecurities.TransportSecurity.SetConfig | src/ESPressio_TransportSecurity.hpp:189-202 | New configuration, fresh window, sequence 1, the configured session, and the notifications that go with them, in order |
| TransportSecurities.TransportSecurity.ResetReplayProtection | src/ESPressio_TransportSecurity.hpp:204-207 | Forgets all domains and says so; nothing else changes |
| TransportSecurities.TransportSecurity.ReportFailure | src/ESPressio_TransportSecurity.hpp:97-100 | The result is passed on unchanged and reported once, if anyone observes |
| TransportSecurities.TransportSecurity.EnsureObservable | src/ESPressio_TransportSecurity.hpp:84-95 | The log is made on first use unless memory fails, and kept afterwards; the answer says whether there is one |
| TransportSecurities.TransportSecurity.RegisterObserver | src/ESPressio_TransportSecurity.hpp:181-184 | A null observer changes nothing and gets no handle; any other gets one iff there is a log or memory for it, and the log exists from then on |
| TransportSecurities.TransportSecurity.Protect | src/ESPressio_TransportSecurity.hpp:217-312 | Result, output bytes, every field, notifications and random draws are those of the model, on every path |
| TransportSecurities.TransportSecurity.SealInto | src/ESPressio_TransportSecurity.hpp:253-291 | The part from the sequence check: the sequence is consumed before anything that can still fail, and the header size check cannot fail |
| TransportSecurities.TransportSecurity.FillOutput | src/ESPressio_TransportSecurity.hpp:287-311 | Nonce, ciphertext and tag land at their offsets behind the header that was authenticated; after a failing draw or seal the output is empty and its memory held only zeros when given up |
| TransportSecurities.TransportSecurity.Unprotect | src/ESPressio_TransportSecurity.hpp:315-417 | Result, payload and every field are those of the model, on every path and for every input |
| TransportSecurities.TransportSecurity.OpenWhole | src/ESPressio_TransportSecurity.hpp:353-385 | The checks from the version on, in order, each with its error |
| TransportSecurities.TransportSecurity.DeliverPayload | src/ESPressio_TransportSecurity.hpp:387-416 | The slices taken are in bounds and are the model's; the commit comes after authentication and protocol check; on failure the memory for the plaintext, decrypted for another protocol or not, held only zeros when it was given up |
| TransportProperties.SessionEnsured | src/ESPressio_TransportSecurity.hpp:102-121 | A session that is ready stays; a session that is made is not zero; a failed attempt changes nothing |
| TransportSending.EnsureSessionExactly | src/ESPressio_TransportSecurity.hpp:102-121 | For every state and script: a ready session is kept; else a configured one is taken and no draw spent; else it is the little-endian value of the first of four draws that is not zero, with the draws up to it spent; a failed draw before that, or four of zeros, leave no session and the state as it was |
| TransportSending.SessionIsUnique | src/ESPressio_TransportSecurity.hpp:102-121 | State and script determine session and number of draws |
| TransportSending.ProtectExactly | src/ESPressio_TransportSecurity.hpp:217-312 | For every state and environment a call is refused iff one of ten reasons applies, for the one of highest precedence: its error, no output, exactly that reported, and session, sequence and draws spent as far as it came. Else plaintext passes unchanged where it is to, or the output is the documented header with the next sequence and the session, the nonce that is the first draw after those of the session, and the ciphertext and tag the cipher makes under exactly these |
| TransportProperties.PartitionIsExact | src/ESPressio_TransportSecurity.hpp:387-398 | Header, nonce, ciphertext and tag slices have the declared lengths and together are the whole input, in that order |
| TransportProperties.EnvelopeShape | src/ESPressio_TransportSecurity.hpp:263-312 | A protected output carries the documented header with a non-zero session and a sequence in 1..2^64-2, and the receiver cuts out of it the very header, nonce, ciphertext and tag that were sealed |
| TransportProperties.TransportRoundTrip | src/ESPressio_TransportSecurity.hpp:217-417 | From any reachable state and under every policy: a receiver with the same cipher and key delivers a protected output iff key ID is not zero, the data fits its limit, the protocol is the expected one and its window accepts; it delivers the original data with all metadata and commits that packet only; otherwise it fails with the error of the first of these it checks |
| EndToEnd.FirstEnvelopeArrivesOnce | tests/test_security.cpp:34-36 | With the test cipher and the default limits, for every key, nonce, non-zero session and receiver policy: the first Protect call succeeds, its output is delivered with all metadata and sequence 1, and delivered again it is a detected replay. What the transport theorems suppose can be met |
| EndToEnd.RoundTripWithStaticKeys | src/ESPressio_StaticKeyProvider.hpp:36-37 | The transport round trip for a sender whose keys are those of a static provider after any interleaving: no condition on the key ID remains |
| EndToEnd.DisabledReceiverOpens | TRANSPORT_SECURITY.md:89 | An envelope that a receiver under Disabled opens and hands up as protected |
| EndToEnd.MagicPlaintextIsLost | src/ESPressio_TransportSecurity.hpp:325-336 | A payload that leaves a plaintext sender unchanged and is refused as malformed under every policy |
| EndToEnd.KeyZeroIsSentAndRefused | src/ESPressio_TransportSecurity.hpp:363-365 | A provider that resolves key ID zero, for which Protect succeeds and Unprotect refuses the result |
| EndToEnd.CutSizeIsSealedAndLost | src/ESPressio_DataProtector.hpp:77-79 | A cipher that satisfies Law A, whose record is protected with success and does not open |
| EndToEnd.SameSessionResetIsSilent | src/ESPressio_TransportSecurity.hpp:189-202 | A node that sent and delivered is given its configuration again: window and counter start over, the same envelope is delivered a second time, and the observer heard of the change only |
| TransportProperties.DeliverableIsDelivered | src/ESPressio_TransportSecurity.hpp:315-417 | Every input that is a well-formed envelope of a known cipher and key, authentic, fresh, within the limit and of the expected protocol is delivered with the fields of its header |
| TransportProperties.DeliveredWasDeliverable | TRANSPORT_SECURITY.md:121-136 | Nothing else is delivered as protected: the converse, for arbitrary bytes |
| TransportProperties.FailedUnprotectIsInvisible | src/ESPressio_TransportSecurity.hpp:315-417 | Every failing call returns the default payload and leaves configuration, window, session and sequence as they were; only its report is added |
| TransportProperties.ErrorNamesItsCause | TRANSPORT_SECURITY.md:121-136 | For arbitrary input: a call fails iff one of fourteen reasons applies, and with the error of the one of highest precedence; authenticity is stated of any way to read the bytes as header, nonce, ciphertext and tag |
| TransportProperties.AuthenticOpens | src/ESPressio_TransportSecurity.hpp:387-398 | Some reading of the bytes as parts opens iff the slices the receiver takes do |
| TransportProperties.MagicIsRead | src/ESPressio_TransportSecurity.hpp:353-358 | What looks protected has the right magic when read as a header |
| TransportProperties.RequiredSendsProtected | TRANSPORT_SECURITY.md:91 | Under Required a Protect call succeeds only with a protected output, and a failing one returns no bytes |
| TransportProperties.RequiredAcceptsProtected | TRANSPORT_SECURITY.md:91 | Under Required an Unprotect call succeeds only with an authenticated payload |
| TransportProperties.PlaintextRoundTrip | src/ESPressio_TransportSecurity.hpp:225-246 | A sender that does not protect and a receiver that does not insist hand data through unchanged iff the data does not begin with the magic; then neither state changes |
| TransportRuns.RunKeepsReachable | src/ESPressio_TransportSecurity.hpp:73-81 | After any calls in any order: session ready iff non-zero, sequence positive, window clamped to the configuration, configured session in force |
| TransportRuns.ProtectAdvances | src/ESPressio_TransportSecurity.hpp:250-263 | A call consumes exactly the next sequence or none; a protected success always consumes one; a failing one is reported once |
| TransportRuns.UnprotectCommits | src/ESPressio_TransportSecurity.hpp:375-416 | The window changes iff a protected payload is delivered, and then by that packet, which it accepted |
| TransportRuns.WindowHoldsDelivered | TRANSPORT_SECURITY.md:99 | Over a run of one epoch the window is the one made by the delivered packets alone, whatever else arrived |
| TransportRuns.AtMostOnce | src/ESPressio_TransportSecurity.hpp:375-408 | For arbitrary bytes and any cipher, no two protected payloads of one epoch agree in sender, key, session and sequence |
| TransportRuns.DeliveriesFitSequences | src/ESPressio_ReplayWindow.hpp:35-49 | A domain never delivers more payloads in an epoch than its highest delivered sequence |
| TransportRuns.RejectedCallsLeaveNoTrace | src/ESPressio_TransportSecurity.hpp:315-417 | Deleting all failed Unprotect calls from a run changes no other reply and, apart from the reports, not the state |
| TransportRuns.OutboundSequences | src/ESPressio_TransportSecurity.hpp:250-263 | Between SetConfig calls the counter is its start plus the attempts that reached allocation, failed ones included, and never wraps; emitted envelopes carry strictly rising sequences below 2^64-1 under one non-zero session |
| TransportRuns.ExhaustedSendsNothing | src/ESPressio_TransportSecurity.hpp:253-255 | Once the counter is exhausted no protected envelope goes out until SetConfig |
| TransportRuns.GenuineAfterRun | src/ESPressio_TransportSecurity.hpp:363-416 | After any run of its epoch, a receiver with cipher and key takes a genuine envelope iff key ID, limit and protocol allow and its packet is fresh against the set it delivered |
| TransportRuns.DeliveredIsRefused | TRANSPORT_SECURITY.md:69 | Bytes with the identity and sequence of a delivered packet fail for the rest of the epoch, whatever cipher and keys there are |
| TransportRuns.ReusedSessionIsRejected | TRANSPORT_SECURITY.md:145 | Whatever was before, all a sender emits under an explicit session lies in one domain, numbered from one by its allocations since SetConfig. So after the session is taken up again an emission is accepted iff its number is fresh against what was delivered of any use of the session, and one whose number was delivered fails |
| TransportRuns.SetConfigAnnounces | src/ESPressio_TransportSecurity.hpp:189-202 | For every state and configuration: a session reset is announced iff there was a session and it is not kept, an establishment iff the configured session is there and new, a replay reset never; only the change is announced iff the session stays; folding the news gives the new session |
| TransportRuns.ResetIsSilentIff | src/ESPressio_ITransportSecurityObserver.hpp:23-33 | SetConfig always restarts window and counter, and the log grows by the notice of the change alone iff the configured session is the one in force |
| TransportRuns.NotificationsAreFaithful | src/ESPressio_TransportSecurity.hpp:97-121 | An observer that starts from the current session and folds what it hears holds the session after every later run; it hears exactly as many failures as there were failing replies, replay resets as there were ResetReplayProtection calls, and session resets as there were SetConfig calls that took a session away |
| TransportRuns.ReplayResetsAreDue | src/ESPressio_TransportSecurity.hpp:204-207 | The number of replay resets due in a run is the number of its ResetReplayProtection calls, whatever their states |
| TransportRuns.RequiredThroughout | TRANSPORT_SECURITY.md:87-93 | While every configuration of a run is Required, no reply of the run is an unprotected success |
| TransportRuns.RequiredWhileConfigured | TRANSPORT_SECURITY.md:91 | From any state, in any run: no call made while the configuration given last is Required succeeds unprotected |
| TransportRuns.LastConfigIsInForce | src/ESPressio_TransportSecurity.hpp:189-202 | After any run the configuration in force is, in every field, the one given last |
| TransportRuns.ReconfiguredIsNew | TRANSPORT_SECURITY.md:71 | A reconfigured node is, its log apart, the node constructed with that configuration: configured session or none, sequence 1, empty window of the clamped size |
| ExactlyOnce.PassedIffBounded | src/ESPressio_ReplayWindow.hpp:24-49 | A window passes every first arrival and no repetition, in arrival order, iff each first arrival lies less than the window size below all earlier arrivals |
| ExactlyOnce.RepetitionsDoNotPass | src/ESPressio_ReplayWindow.hpp:24-49 | What arrived once, passed or refused, does not pass later |
| ExactlyOnce.EpochIsOneDomain | src/ESPressio_TransportSecurity.hpp:250-282 | All envelopes of a sender epoch share sender, key and session, and none repeats a sequence |
| ExactlyOnce.ReceiptDelivers | src/ESPressio_TransportSecurity.hpp:375-416 | A genuine envelope is delivered as it was sent iff the window accepts its packet |
| ExactlyOnce.DeliveredIsPassed | src/ESPressio_TransportSecurity.hpp:375-416 | For any arrival order with duplicates, the run of Unprotect calls delivers exactly the arrivals that pass, in order |
| ExactlyOnce.ExactlyOnceDelivery | TRANSPORT_SECURITY.md:95-99 | The delivered list is the arrival list with duplicates removed iff the reordering is bounded by the window |
| Channel.ChannelIsAuthentic | src/ESPressio_TransportSecurity.hpp:217-417 | With Laws A and B, whatever the carrier does and whatever records are protected under the same keys: every event that hands up a protected payload has an earlier event, a successful Protect call, equal in protocol, algorithm, key ID, sender, session, sequence, data and bytes; and no two such events of one node within one epoch have the same origin |
| Channel.HandedUpWasSent | src/ESPressio_SecureTransportDecorator.hpp:40-64 | The first half: the origin comes before the receipt |
| Channel.HandedUpOnce | src/ESPressio_TransportSecurity.hpp:375-408 | The second half: two receipts of one epoch never hand up the same letter |
| Channel.DeliveredWasSent | src/ESPressio_TransportSecurity.hpp:387-416 | The single step: an envelope that opens is a sent one, byte for byte, not a record and not a variation |
| Channel.RecordsAreAuthentic | README.md:153 | A record that opens under a context came out of an earlier successful Protect call of a data protector, in these very bytes, under that very context, with that plaintext, though transport envelopes share its keys |
| Channel.HistoryIsSound | src/ESPressio_TransportSecurity.hpp:299-306 | The invariant over all events: every sealed call belongs to a sent envelope or a protected record, and every node's window holds just its epoch's deliveries |
| HonestCarrier.HonestCarrierMeetsLawB | src/ESPressio_SecureTransportDecorator.hpp:40-64 | Where keys are bound and everything that arrives was sent, however dropped, duplicated and reordered, Law B holds at every step without being assumed |
| DataModel.DecodeDataInverts | src/ESPressio_DataProtector.hpp:227-256 | The 18 written bytes, whatever follows, are read back to the same six fields, and start with ESDP |
| DataModel.EncodeDataInverts | src/ESPressio_DataProtector.hpp:247-256 | Writing the fields read gives the same 18 bytes |
| DataModel.DataFieldsAt | src/ESPressio_DataProtector.hpp:235-244 | Every header field of a record lies at its offset in its width, least significant byte first |
| DataProperties.DataPartitionIsExact | src/ESPressio_DataProtector.hpp:148-163 | Header, nonce, tag and ciphertext slices, in that order, have the declared lengths and are the whole input |
| DataProperties.DataSealed | src/ESPressio_DataProtector.hpp:64-114 | A successful record is header, nonce, tag and ciphertext of one seal over header and context |
| DataReasons.ProtectDataExactly | src/ESPressio_DataProtector.hpp:35-115 | A call is refused iff one of seven reasons applies, for the one of highest precedence, with its error and no output; else the output is the documented header, the nonce that is the next draw, and tag and ciphertext the cipher makes of the data under header followed by context |
| DataReasons.UnprotectDataExactly | src/ESPressio_DataProtector.hpp:117-190 | A call is refused iff one of eleven reasons applies, for the one of highest precedence, with its error and no plaintext; else it returns the one plaintext the input opens to, in any reading as header, nonce, tag and ciphertext, under the context |
| DataReasons.RecordOpens | src/ESPressio_DataProtector.hpp:161-184 | Some reading of the bytes opens iff the slices the reader takes do, and all that open give the same plaintext |
| DataProperties.PartsOpen | src/ESPressio_DataProtector.hpp:129-189 | Genuine parts open iff the header declares their true sizes and the limit admits them |
| DataProperties.DataRoundTrip | src/ESPressio_DataProtector.hpp:33-190 | A protected record opens, under the same context, key and cipher, iff no size was cut when written and the reader's limit admits it; what opens is what was protected |
| DataProperties.RoundTripAcrossRotation | src/ESPressio_DataProtector.hpp:33-190 | The same after any reconfigurations, key additions and removals and cipher registrations that spare the record's key and cipher |
| DataProperties.SparedHoldings | src/ESPressio_AeadCipherRegistry.hpp:15-27 | Such rotations leave the record's key and cipher in place; registering a rival cipher is no threat |
| DataProperties.AadIsInjective | src/ESPressio_DataProtector.hpp:88-100 | Associated data of records are equal iff headers and context bytes are |
| DataProperties.FormatsAreSeparate | src/ESPressio_DataProtector.hpp:165-174 | No record's associated data is ever that of a transport envelope |
| DataProperties.ReadShape | src/ESPressio_DataProtector.hpp:148-189 | A successful read opened exactly the parts of its input under the authenticated header and context |
| DataProtectors.DataProtector.WriteHeader | src/ESPressio_DataProtector.hpp:227-245 | The header is written over the first 18 bytes and nothing else is touched |
| DataProtectors.DataProtector.ReadHeader | src/ESPressio_DataProtector.hpp:247-256 | Succeeds iff there are 18 bytes, the magic and a non-zero key ID, and then yields every field |
| DataProtectors.DataProtector.Protect | src/ESPressio_DataProtector.hpp:35-115 | Result, output and random draws are those of the model, on every path |
| DataProtectors.DataProtector.FillOutput | src/ESPressio_DataProtector.hpp:82-114 | Nonce, tag and ciphertext land at their offsets; a failing draw or seal clears the output |
| DataProtectors.DataProtector.Unprotect | src/ESPressio_DataProtector.hpp:117-190 | Result and plaintext are those of the model, on every path and for every input |
| DataProtectors.DataProtector.OpenWhole | src/ESPressio_DataProtector.hpp:133-189 | The checks from the version on, in order, each with its error; the slices taken are in bounds and are the model's |
| DataProtectors.DataProtector.SetConfig | src/ESPressio_DataProtector.hpp:33 | The configuration is replaced |
| KeyEntries.PublishUpdates | src/ESPressio_StaticKeyProvider.hpp:50-66 | Replacing in place or appending is a map update and keeps references unique |
| KeyEntries.EraseRemoves | src/ESPressio_StaticKeyProvider.hpp:78-84 | Erasing an entry is a map removal |
| KeyStore.TakeIsSafe | src/ESPressio_StaticKeyProvider.hpp:36-104 | Every lock-delimited section and every release keeps the invariant (reference counts equal the holders among entries, views and locals, nothing dangles, only unreferenced storage is destroyed) and changes the holders by exactly the shared pointer it takes or gives up |
| KeyStore.StorageHasOneOrigin | src/ESPressio_StaticKeyProvider.hpp:36-48 | Every storage of a run was created by exactly one step, the first section of an Add call, with that call's bytes; every entry that holds it is under that call's key ID and algorithm, and every view carries that key ID |
| KeyStore.ErasedIffUnheld | src/ESPressio_SecurityTypes.hpp:89-103 | In every interleaving of any number of threads, storage is zeroed and destroyed iff no entry, view or local, the list swapped out by Clear included, holds it; until then its bytes are those given to the one Add call that created it |
| KeyStore.LastDropErases | src/ESPressio_SecurityTypes.hpp:89-103 | Dropping a view empties it and no other, and erases its storage iff nothing else holds it |
| KeyStore.ClearFinishes | src/ESPressio_StaticKeyProvider.hpp:86-94 | A clearing thread gives up every storage it swapped out, and is done |
| KeyStore.NothingIsLeft | src/ESPressio_StaticKeyProvider.hpp:86-94 | Once keys are removed, views dropped and calls finished, every storage there ever was is zeroed |
| KeyStore.ViewStays | src/ESPressio_SecurityTypes.hpp:105-115 | No step but its own release changes a bound view |
| KeyStore.SnapshotIsStable | src/ESPressio_SecurityTypes.hpp:105-115 | From any point of a run, as long as a view is not dropped, whatever any threads do: it stays bound as it is and reads the bytes and carries the key ID given to the one Add call that created its storage |
| KeyStore.LookupsLinearize | src/ESPressio_StaticKeyProvider.hpp:36-104 | In every interleaving of a provider's life, callers of Add, Remove and GetKey learn (success of adding and removing, key ID and bytes of the view) what a sequential map tells them that runs one operation per effective section with the arguments the callers gave |
| KeyStore.AnswerAgrees | src/ESPressio_StaticKeyProvider.hpp:36-104 | The single section: its answer is the map's |
| KeyStore.RunKeepsPending | src/ESPressio_StaticKeyProvider.hpp:39-58 | A thread between the two sections of Add holds storage with the bytes and under the reference its own call was given |
| KeyStore.TakeStores | src/ESPressio_StaticKeyProvider.hpp:36-104 | Each section changes the entry list as its one map operation does |
| KeyStore.UnusedAgrees | src/ESPressio_StaticKeyProvider.hpp:18-34 | A fresh provider satisfies the invariant and is the empty map |
| KeyStore.KeyIDsAreNeverZero | src/ESPressio_StaticKeyProvider.hpp:36-37 | No interleaving makes the provider resolve key ID zero or an empty key |
| KeyProviders.KeyMaterialStorage.Release | src/ESPressio_SecurityTypes.hpp:94-102 | One owner less; the last release overwrites every byte with zero, any other leaves the bytes alone |
| KeyProviders.KeyMaterialView.Bind | src/ESPressio_SecurityTypes.hpp:118-128 | The view, empty or bound, takes the key ID and a share of the storage, if any, and gives up what it held; binding it to what it holds changes no count and no byte |
| KeyProviders.KeyMaterialView.Drop | src/ESPressio_StaticKeyProvider.hpp:98 | The view becomes empty and gives up its share |
| KeyProviders.StaticKeyProvider.FindLocked | src/ESPressio_StaticKeyProvider.hpp:123-141 | The linear search finds the first entry for the reference, or the end |
| KeyProviders.StaticKeyProvider.Add | src/ESPressio_StaticKeyProvider.hpp:36-67 | Accepts iff the key ID is not zero, the key not null or empty, and memory suffices; then the new bytes are published in fresh storage, in place of an old entry or at the end, and replaced storage loses one owner; a refused call changes nothing |
| KeyProviders.StaticKeyProvider.Publish | src/ESPressio_StaticKeyProvider.hpp:50-66 | The same for the section under the lock; storage that cannot be published is erased |
| KeyProviders.StaticKeyProvider.Replace | src/ESPressio_StaticKeyProvider.hpp:52-54 | The entry keeps its place and reference, takes the new storage, and the old one loses one owner |
| KeyProviders.StaticKeyProvider.Remove | src/ESPressio_StaticKeyProvider.hpp:78-84 | Removes the entry iff there is one; its storage loses one owner |
| KeyProviders.StaticKeyProvider.Clear | src/ESPressio_StaticKeyProvider.hpp:88-94 | No entries remain and each former one's storage lost one owner, erased where that was the last |
| KeyProviders.StaticKeyProvider.GetKey | src/ESPressio_StaticKeyProvider.hpp:97-104 | The view first gives up what it held; it then shares the storage of the entry, with its bytes unchanged, iff there is one, and is never bound to an empty key |
| KeyProviders.StaticKeyProvider.Lend | src/ESPressio_StaticKeyProvider.hpp:99-103 | The section under the lock: the entry's storage gains one owner iff there is an entry, and nothing else changes |
| Decorators.SecureTransportDecorator.constructor | src/ESPressio_SecureTransportDecorator.hpp:25-28 | Carrier and security are bound, the decorator is installed as the carrier's receiver, and neither of its own callbacks is set |
| Decorators.SecureTransportDecorator.Detach | src/ESPressio_SecureTransportDecorator.hpp:31 | Destruction leaves the carrier without a receiver |
| Decorators.Carrier.Arrive | src/ESPressio_SecureTransportDecorator.hpp:27 | Bytes that arrive are handled by the installed decorator, or by nobody |
| Decorators.SecureTransportDecorator.Send | src/ESPressio_SecureTransportDecorator.hpp:40-46 | The carrier gets exactly the bytes Protect returned, under their protocol, iff Protect succeeded; true iff the carrier also accepted them |
| Decorators.SecureTransportDecorator.HandleReceive | src/ESPressio_SecureTransportDecorator.hpp:59-64 | The receiver gets the payload unchanged iff Unprotect succeeded, the error observer the result iff it failed, each only where set |

## Left out

- The mbedTLS cipher wrappers and every property of a real algorithm beyond Laws A and B.
- Entropy: quality of randomness, uniqueness of nonces and of generated session identifiers, and the system random sources.
- The observer library: what handles are good for, unregistration, exceptions and re-entrant observers. Notifications form one log that starts with the first registration.
- The event bridge and event classes, which forward notifications.
- Memory placement, and allocation failures the code does not catch (DataProtector, plaintext pass-through, replay states, diagnostics). Caught ones are outcomes of the environment.
- The text of diagnostic messages, and the string forms of the data protector, which only convert.
- Wrap-around of sums of lengths where `std::size_t` has 32 bits.
- Overlap of input and output buffers, and use of one TransportSecurity by several threads, which has no lock of its own.
- The machine's bit operators: `Or`, `And`, `ShiftLeft` and exclusive-or are defined on integers, bit by bit.
- Scratch contents: a failing cipher call may leave bytes in the sized output; the model shows that the buffer is erased, not what it held.
- The objects of `KeyProvider.dfy` run one call at a time; interleaving is modelled on the values of `KeyStore.dfy`, which use the same entry list functions, and no refinement between the two is proved. Copying a view, which is two assignments, is a step of the interleaving model only.
- Decorators.SecureTransportDecorator.Send: the carrier is an object that logs what it is given and answers as told; what callbacks do with what they are given is not modelled.
- HonestCarrier.HonestCarrierMeetsLawB: covers transport envelopes; authenticity of protected records always rests on Law B.
