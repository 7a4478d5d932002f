# Evidence integrity in AI-DFIR: a Dafny model

AI-DFIR collects, stores and reconstructs evidence about AI incidents. This project models the
parts of it on which the trustworthiness of that evidence rests, and proves what they promise over
every input, every run and every interleaving.

`dafny verify dfyconfig.toml` checks everything; there is nothing to execute.

## What is modelled

* **Tamper evidence.** The attestation log (`AttestationLog`), the repository audit log
  (`AuditLog`), the Merkle anchor (`Merkle`, `Anchor`), and the hash chain they share
  (`HashChain`, `EventLinks`). Results about hashes have the form "equal, or these two messages,
  both hashed here, collide"; nothing assumes that SHA-256 is injective.
* **Unambiguous encodings.** Canonical JSON for three printers (`CanonicalJson`, `StringEscapes`,
  `Rfc8785`, `PythonJson`), including ECMAScript's number texts, and a parser that accepts exactly
  the canonical texts (`CanonicalReader`, `Rfc8785Reader`); the DSSE pre-authentication encoding
  (`Dsse`); base64url, UTF-8, decimal and big-endian texts (`Encodings`). What texts mean, apart from
  their printers, is in `NumberMeaning` and `EncodingMeaning`.
* **Storage.** The two chunked authenticated formats (`EncryptedObjects`, `KmsEnvelope`), the
  evidence repository as a class, its runs and the anchors made in them (`Repository`,
  `RepositoryRuns`, `RepositoryHistory`, `EncryptionAtRest`, `AnchorRuns`), and the local immutable
  store (`ObjectStore`).
* **Protocols.** The fleet heartbeat protocol over a network that drops, delays and duplicates
  (`FleetPolicy`, `FleetCollector`, `FleetProtocol`), acquisition-task leases (`TaskLeases`), and
  the containment guard's cache (`Containment`).
* **Reconstruction.** Bounded typed path search (`CausalPaths`, `CausalGraph`), blast radius and
  shortest causal paths (`AgenticGraph`, `AgenticIncident`), and divergence localisation
  (`Divergence`, `Percentile`).
* **Agent cards.** Preparation before signing (`AgentCard`), signing (`CardSigning`), and the
  verdict on every signature (`CardVerification`).

SHA-256, HMAC, AES-GCM, signatures and key wrapping are function-typed parameters with stated laws
(`EncryptedObjects.Laws`, `KmsEnvelope.Laws`, `AttestationLog.Lawful`, `Merkle.Digests32`).
Clocks, random bytes, fresh identifiers and the text Python gives a number are parameters too.
A method that loops or updates state is proved equal to a specification function; the theorems
are about those functions.

## Where the code does not do what it promises

Each of these is proved, with an input that shows it and the exact condition under which the
promise holds.

* An agent whose request was accepted but never answered is rejected for ever after. This can
  happen to any agent (`FleetProtocol.StrandingIsReachable`), and it is the only thing that can
  stop one: an agent can get another heartbeat acknowledged exactly when it is not in that state
  (`StrandedIff`, `GivingUpStrands`).
* Completing a task with no collector id succeeds on any task nobody holds, finished ones included
  (`TaskLeases.AnonymousCompletion`). A completion that succeeds ends a lease if and only if it
  names a collector (`CompletionNeedsIdentity`), and the calls leave every task a lawful history if
  and only if all completions that succeed do (`HistoriesAreLawful`). The shipped collector worker
  always does. Leases never overlap in either case (`LeasesNeverOverlap`).
* Card preparation is idempotent if and only if the provider does not lose all its members
  (`AgentCard.PrepareTwiceIff`, `PrepareTwiceDiffers`).
* An appended event verifies exactly when it does not carry one of the two members that
  `verify_log` removes, hash collisions aside (`AttestationLog.AppendVerifiesIff`); one that does is
  in `ReservedMemberRejected`. A log passes verification that requires an HMAC exactly when every
  writing session had the key (`RequiredHmacIff`).
* Two leaf lists of different lengths can share a Merkle root (`Merkle.OddListsShareTheirRoot`);
  with equal lengths they cannot (`RootFixesLeaves`).
* A chunk size of zero writes an empty object without complaint
  (`EncryptedObjects.ZeroChunkLosesData`); every positive one round trips (`EncryptDecrypt`). No
  caller in the repository passes a chunk size, so the default of four MiB is the one in use.
* The last length field of an AIDFIR15E1 envelope may claim more bytes than the file has, because
  short reads are not checked: every non-empty encrypted file still decrypts after the field is
  raised (`KmsEnvelope.OverstatedLengthDecrypts`); nothing else is let through (`DecryptsIff`).
* A causal path through an event without an id is cut there and marked not causal
  (`AgenticGraph.NullIdCutsThePath`, on the graph of the two events of
  `AgenticIncident.EventsThatCut`). What is reported is the one shortest path that takes the
  successor listed first wherever several lie on a shortest path, cut after its last null id and
  marked causal exactly when it holds none (`TracePath`, `FirstShortestUnique`,
  `AgenticIncident.LineIsDetermined`).
* A consequence that is itself a seed is reported with a path of that one event, although it was
  only reached around a cycle: the search starts with it (`AgenticIncident.ExplainsMeans`,
  `SeedOnACycle`). Every other line that is marked causal shows at least one edge.
* A changed control file under an unchanged stat triple is not seen
  (`Containment.SameStatIsNotReread`). The cache is transparent if and only if the stat triple
  tells the verdicts of the written versions apart (`TransparentIff`).

## Model

| member | source | states |
|---|---|---|
| CanonicalJson.SameMeaningSameText | a2a_jcs_node.js:16-28 | values equal up to the order of object members print the same text, under any lawful style |
| CanonicalJson.CanonPrefixFree | a2a_jcs_node.js:16-28 | the printed text of a value can be cut off the front of any longer text in one way only, and fixes the value |
| CanonicalJson.CanonicalTextIffSameMeaning | a2a_jcs_node.js:16-28 | same text if and only if equal up to member order, for every lawful style of escaping, number text and key order |
| CanonicalJson.SmallerNameFirst | a2a_jcs_node.js:23-26 | of two members of an object, the one whose name comes first in the order of the style stands first in the text |
| StringEscapes.EscapeControlsIsPrefixCode | a2a_jcs_node.js:17-20 | JSON.stringify's character escapes can be read back one character at a time |
| StringEscapes.EscapeNonAsciiIsPrefixCode | live_attestation.py:137-144 | the escapes of ASCII-only JSON, surrogate pairs included, can be read back one character at a time |
| StringEscapes.EscapesMean | live_attestation.py:137-144 | undoing escapes, \u among them, reads every character of either escaping back as its UTF-16 code units |
| StringEscapes.StringsMean | live_attestation.py:137-144 | and so every string |
| StringEscapes.ShortForms | a2a_jcs_node.js:17-20 | which characters have a short escape and which stand as they are; ASCII-only text is ASCII |
| Rfc8785.NumberToStringInjective | a2a_jcs_node.js:17-20 | ECMAScript's number text, in all its layouts, determines the number |
| Rfc8785.NumberTextsAreWords | a2a_jcs_node.js:17-20 | a number text is not empty, begins no other kind of value, and holds no character that ends one |
| Rfc8785.ExponentIff | a2a_jcs_node.js:17-20 | a number is written with an exponent exactly below a millionth and from 10^21 on |
| NumberMeaning.NumberTextMeans | a2a_jcs_node.js:17-20 | the text of a number, read as a decimal numeral with sign, point and exponent, has the value of the number |
| Rfc8785.StyleIsLawful | a2a_jcs_node.js:17-25 | the canonicalizer's escapes, numbers and key order meet the conditions of the general theorem; which order it is says MembersInUnitOrder |
| Rfc8785.MembersInUnitOrder | a2a_jcs_node.js:23-26 | of two members the one whose name is a prefix, or has the smaller UTF-16 code unit where the two first differ, stands first in the text |
| Rfc8785.CanonicalIffEqualUpToMemberOrder | a2a_jcs.py:47-94 | two valid I-JSON values have the same canonical text if and only if they are equal up to member order |
| CanonicalReader.ReadIffCanonical | a2a_jcs_node.js:16-28 | under any lawful style with readable escapes and numbers, the parser returns a value exactly when the text is its canonical text and its members are in printed order |
| CanonicalReader.AcceptsIffCanonical | a2a_jcs_node.js:16-28 | the parser accepts a text exactly when some well-formed value prints as it |
| CanonicalReader.ReadPrinted | a2a_jcs_node.js:16-28 | parsing what was printed gives the value back, up to member order |
| CanonicalReader.ReadIsWritten | a2a_jcs_node.js:16-28 | whatever the parser takes off the front of a text is what the printer writes for it with the members as they stand, so nothing but printed text is taken |
| CanonicalReader.OrderedIffArranged | a2a_jcs_node.js:23-25 | a value has its members in order at every depth exactly when sorting them leaves it alone |
| Rfc8785Reader.ReadEscapeInverts | a2a_jcs_node.js:17-20 | every escape of JSON.stringify is read back as its character, whatever follows |
| Rfc8785Reader.ReadEscapeSound | a2a_jcs_node.js:17-20 | whatever is read as an escaped character is what JSON.stringify writes for it |
| Rfc8785Reader.ReadNumberInverts | a2a_jcs_node.js:17-20 | every number text of ECMAScript, in all four layouts, is read back as its number |
| Rfc8785Reader.ReadsExactlyCanonicalText | a2a_jcs.py:47-94 | a concrete parser accepts exactly the canonical texts of I-JSON values |
| Rfc8785Reader.ParsedIsWhatWasPrinted | a2a_jcs.py:47-94 | canonicalizing and parsing give the value back, up to member order |
| PythonJson.StylesAreLawful | live_attestation.py:131-144 | json.dumps with sorted keys, with or without ASCII escapes, meets the same conditions whenever number texts are distinct words |
| PythonJson.MembersInCharacterOrder | live_attestation.py:131-144 | of two members the one whose name is a prefix, or has the smaller character where the two first differ, stands first in the text |
| Sorting.Utf16OrderIsTotal | a2a_jcs_node.js:24 | comparing UTF-16 code units is a total order on strings, so sorting by it is unambiguous; which order it is says Utf16LeMeans |
| Sorting.Utf16LeMeans | a2a_jcs_node.js:24 | a string comes before another exactly when its code units are a prefix, or smaller where the two first differ |
| Sorting.Utf16UnitsDecode | a2a_jcs_node.js:24 | a character below 65536 is its own unit; any other is a surrogate pair that decodes to it |
| Sorting.CodePointOrderIsTotal | evidence_anchor.py:23 | Python's string comparison is a total order |
| Sorting.CodePointLeMeans | evidence_anchor.py:23 | a string comes before another exactly when it is a prefix, or has the smaller character where the two first differ |
| Sorting.SortDependsOnMultiset | evidence_anchor.py:23 | sorted lists agree exactly when the multisets do |
| Encodings.Utf8Injective | evidence_anchor.py:20-23 | encoded strings are equal only for equal strings |
| EncodingMeaning.Utf8CharDecodes | evidence_anchor.py:20-23 | the bytes of a character are one to four by its size, with the marks of UTF-8, and carry its bits |
| Encodings.DecimalRoundTrip | provenance_bundle.py:106-109 | a number is read back from its decimal numeral |
| Encodings.NumeralRoundTrip | provenance_bundle.py:106-109 | a numeral without a superfluous zero is the one that str() writes for its value |
| Encodings.BigEndianRoundTrip | evidence_repository.py:96-99 | a number that fits is read back from its big-endian bytes |
| Encodings.FromBigEndianRoundTrip | evidence_repository.py:110-113 | bytes are the big-endian form of the number read from them |
| Encodings.Base64UrlRoundTrip | a2a_jcs.py:96-104 | restoring the padding and decoding inverts encoding and stripping it, for all bytes |
| Encodings.Base64UrlInjective | a2a_jcs.py:96-98 | different bytes have different base64url texts |
| EncodingMeaning.Base64UrlMeans | a2a_jcs.py:96-98 | the text is, to base 64, the big-endian number of the bytes followed by the zero bits that fill its last symbol; its length follows from theirs |
| EncodingMeaning.SymbolsOfAlphabet | a2a_jcs.py:96-98 | the symbols are those of the URL-safe alphabet in its order |
| Dsse.ReadIffEncoded | provenance_bundle.py:101-112 | a parser recovers exactly the pair that was encoded, and rejects every other byte string |
| Dsse.PaeUnambiguous | provenance_bundle.py:276-286 | what is signed determines payload type and payload, for all strings and bytes |
| Dsse.PaeLayout | provenance_bundle.py:101-112 | the encoding written out as one text with the payload after it |
| HashChain.HeadFixesLog | live_attestation.py:176-235 | two linked chains with the same head are equal, or two hashed messages collide, or one of different length hits the all-zero start value |
| EventLinks.EventsFaithful | live_attestation.py:131-150 | equal hashed messages mean equal events, so equal chains of messages are equal chains of events |
| AttestationLog.VerifyLog | live_attestation.py:176-235 | the loop computes the verdict, count, head or failure that the line-by-line specification gives |
| AttestationLog.AcceptedIffLinked | live_attestation.py:176-235 | without a key a log is accepted exactly when every line is blank or a self-hashed event and the events form a linked chain |
| AttestationLog.KeyedIff | live_attestation.py:204-224 | with a key it is accepted exactly when it is accepted without one and every event holds the HMAC of its hash under that key, or none where none is required; HMACs required without a key pass only in an empty log |
| AttestationLog.OtherKeyRejected | live_attestation.py:212-224 | a log with an event written under another key is not accepted, unless both keys give one HMAC of its hash |
| AttestationLog.RejectionMeans | live_attestation.py:176-227 | a rejection names the first line that fails, and a reason that is true of it |
| AttestationLog.MessageOfOne | live_attestation.py:137-141 | the hashed bytes of a one-member event, spelled out |
| AttestationLog.RejectionIsFinal | live_attestation.py:176-235 | once a prefix is rejected, nothing that follows changes the verdict |
| AttestationLog.PrefixAccepted | live_attestation.py:176-235 | every prefix of an accepted log is accepted |
| AttestationLog.ChainLogger.constructor | live_attestation.py:115-120 | a logger holds the file, key, head and count it is given; the zero start is part of Open |
| AttestationLog.ChainLogger.Open | live_attestation.py:115-129 | a logger opens exactly the files that verify, and resumes from the verified head and count |
| AttestationLog.ChainLogger.Append | live_attestation.py:131-150 | one line is appended, linked to the previous hash; head and count move with it |
| AttestationLog.AppendVerifiesIff | live_attestation.py:131-150 | the appended log verifies with the new head exactly when the event does not hold a member that verification removes, or else a collision is exhibited |
| AttestationLog.ReservedMemberRejected | live_attestation.py:131-150 | a one-event log whose event holds its own HMAC is rejected, unless two stated messages collide |
| AttestationLog.SessionsVerify | live_attestation.py:114-150 | any sequence of logger sessions under one key or none, on an accepted log: each opens, and the log stays accepted with the right count |
| AttestationLog.BuiltLogsVerify | live_attestation.py:114-235 | every log such sessions build from nothing is accepted by readers with the key, and so is every prefix of it |
| AttestationLog.KeylessAgrees | live_attestation.py:204-227 | a reader without a key accepts whatever any reader accepts, with the same count and head |
| AttestationLog.AnyKeysVerify | live_attestation.py:114-150 | whatever keys the sessions used, if each could open the file the log verifies without a key and counts every append |
| AttestationLog.RequiredHmacIff | live_attestation.py:204-224 | a built log passes verification that requires an HMAC exactly when every session that wrote anything had the key |
| AttestationLog.AcceptedIsLinked | live_attestation.py:176-235 | an accepted log is a linked chain, and verification reports its length and head |
| AttestationLog.HeadFixesEvents | live_attestation.py:176-235 | accepted logs with the same head hold the same events one by one, or a collision or a hit on the start value is exhibited |
| AuditLog.CheckAudit | evidence_repository.py:277-285 | the audit loop of verify finds the first broken line, or the count and head |
| AuditLog.BreakIsFinal | evidence_repository.py:277-285 | after the first broken line nothing else is examined |
| AuditLog.FindLastHash | evidence_repository.py:73-76 | the scan finds the hash that the next entry will name |
| AuditLog.AuditKeepsChain | evidence_repository.py:72-82 | appending to an intact audit log always succeeds and leaves it intact, one entry longer, whatever the details |
| AuditLog.EntrySays | evidence_repository.py:77-81 | an entry holds time, actor, action, details and previous hash under their names, and its own hash |
| AuditLog.MessageOfOne | evidence_repository.py:78-80 | the hashed bytes of a one-member entry, spelled out |
| AuditLog.HeadFixesAudit | evidence_repository.py:277-285 | intact audit logs with one head have the same entries, or a collision or a hit on the start value is exhibited |
| EncryptedObjects.EncryptV2 | evidence_repository.py:88-101 | the writing loop produces the specified header and frames, or the specified overflow error |
| EncryptedObjects.DecryptV2 | evidence_repository.py:103-121 | the reading loop returns the specified plaintext or the specified error, for every stream |
| EncryptedObjects.HeaderLayout | evidence_repository.py:88-92 | the header byte by byte: format name, nonce prefix, chunk size |
| EncryptedObjects.FrameLayout | evidence_repository.py:93-100 | a frame byte by byte: length in four bytes, then the part sealed under prefix and counter for digest and counter |
| EncryptedObjects.DecryptsIff | evidence_repository.py:103-121 | a stream decrypts to a file exactly when it is a header and correctly numbered sealed parts of that file, and the file has the digest |
| EncryptedObjects.EncryptDecrypt | evidence_repository.py:88-121 | encryption succeeds exactly when the frames fit the fields, and decryption then returns the file, for all bytes and positive chunk sizes |
| EncryptedObjects.ZeroChunkLosesData | evidence_repository.py:88-101 | chunk size zero writes an object that decrypts only as the empty file |
| EncryptedObjects.NoNonceTwice | evidence_repository.py:88-101 | the frames written are the results of sealing calls, and no two of these use one nonce |
| EncryptedObjects.CutObjectRejected | evidence_repository.py:109-120 | an object cut at a frame boundary fails the digest check unless the shorter file collides with the whole |
| KmsEnvelope.EncryptFile | kms_envelope_v15.py:57-70 | the writing loop produces the specified envelope or error |
| KmsEnvelope.DecryptFile | kms_envelope_v15.py:72-83 | the reading loop returns the specified plaintext or error, short reads included |
| KmsEnvelope.EnvelopeLayout | kms_envelope_v15.py:57-64 | an envelope byte by byte: format line, header length in four bytes, header, frames |
| KmsEnvelope.FrameLayout | kms_envelope_v15.py:65-70 | a frame byte by byte: length in four bytes, nonce, and what was sealed under it for file digest and index |
| KmsEnvelope.DecryptsIff | kms_envelope_v15.py:72-83 | an envelope opens to a file exactly when its header reads, its key unwraps, and its frames are that file's parts sealed in order under the file's digest |
| KmsEnvelope.EncryptDecrypt | kms_envelope_v15.py:57-83 | whatever the data key, nonces and other header fields, an encrypted file decrypts to itself |
| KmsEnvelope.OverstatedLengthDecrypts | kms_envelope_v15.py:79-82 | every non-empty encrypted file still decrypts to itself after its last length field is raised to anything |
| Repository.ObjectPathInjective | evidence_repository.py:84-86 | two digests never share a stored path |
| Repository.ClassesInOrder | evidence_repository.py:17-18 | the five classes, their names and their order |
| Repository.RepositoryStore.constructor | evidence_repository.py:60-65 | a new repository has no rows, files or audit entries |
| Repository.RepositoryStore.AppendAudit | evidence_repository.py:72-82 | the audit file gains the specified entry or, where the last entry cannot be read, nothing |
| Repository.RepositoryStore.Add | evidence_repository.py:143-177 | object and evidence rows, files, audit and result after an ingest, deduplication and every error included; when it succeeds and what it encrypts is in EncryptionAtRest |
| Repository.RepositoryStore.UpgradeObjectClassification | evidence_repository.py:137-141 | the stored classification rises to the new one and never falls |
| Repository.RepositoryStore.ExtractTo | evidence_repository.py:196-225 | the bytes returned, the audit entry, and every error |
| Repository.ReadsIff | evidence_repository.py:196-220 | an object reads as some bytes exactly when these have its digest and its file holds them in clear, as correctly numbered sealed parts, or in the legacy form |
| Repository.RepositoryStore.Hold | evidence_repository.py:227-230 | a hold row and its audit entry |
| Repository.RepositoryStore.Release | evidence_repository.py:232-238 | the release, its audit entry, the unknown hold, and the second release that does nothing |
| Repository.RepositoryStore.Verify | evidence_repository.py:263-286 | the counts and the finding on every object and on the audit file, or the raise at an unreadable audit line; no findings exactly when the repository is valid |
| Repository.RepositoryStore.DispositionPlan | evidence_repository.py:246-261 | eligible are exactly the expired rows no active hold covers, blocked exactly the expired rows one does, with the reason |
| RepositoryRuns.AddKeepsInv | evidence_repository.py:143-177 | an ingest keeps every object readable, every classification a maximum and the audit chain intact, or changes nothing |
| RepositoryRuns.RunKeepsInv | evidence_repository.py:72-286 | those invariants hold after every run, and every evidence row carries the digest of the bytes added under it |
| RepositoryRuns.VerifyAlwaysValid | evidence_repository.py:263-286 | after any run from an empty repository, verify reports valid |
| RepositoryRuns.ExtractGivesWhatWasAdded | evidence_repository.py:196-225 | after any run, extracting an evidence id gives the bytes added under it or bytes that collide with them; unknown ids are refused |
| RepositoryRuns.StorageIsHighWaterMark | evidence_repository.py:137-166 | after any run, an object's classification is the greatest of the evidence rows that refer to it |
| RepositoryRuns.HoldsFollowHistory | evidence_repository.py:227-238 | after any run, a hold is active exactly when it was created and not released since |
| RepositoryRuns.DispositionFollowsHistory | evidence_repository.py:227-261 | after any run, a row is eligible exactly when its retention has ended and every hold ever put on it or on its case as a whole has been released |
| RepositoryHistory.RowsFollowHistory | evidence_repository.py:143-177 | after any run, every evidence row is the one that the add under its id asked for |
| RepositoryHistory.AuditTellsHistory | evidence_repository.py:72-238 | after any run, the audit file holds one entry for each recorded operation, in order, with its time, actor, action and details |
| EncryptionAtRest.AddSucceedsIff | evidence_repository.py:143-177 | an ingest succeeds exactly when its class is known and its content is stored already, need not be encrypted, or can be |
| EncryptionAtRest.EncryptedAsAsked | evidence_repository.py:148-166 | after any run, an object is encrypted exactly when the first successful ingest of its digest asked for that or, saying nothing, found a key; its file still reads as that content |
| EncryptionAtRest.NothingInClear | evidence_repository.py:148-150 | with a key, and no ingest that declines encryption, every object is encrypted |
| ObjectStore.LocalImmutableStore.constructor | object_store_v15.py:16 | a new store is empty |
| ObjectStore.LocalImmutableStore.Put | object_store_v15.py:17-30 | content is kept under its digest; retention and hold merge with what was there; a damaged object is refused |
| ObjectStore.LocalImmutableStore.Get | object_store_v15.py:31-35 | bytes are returned exactly when stored and still matching their digest |
| ObjectStore.LocalImmutableStore.SetLegalHold | object_store_v15.py:36-39 | the hold flag of a known digest is set and nothing else of it changes |
| ObjectStore.StoreFollowsHistory | object_store_v15.py:17-39 | after any history, retention is the maximum over all puts of the digest, and the digest is held exactly when something turned its hold on and no explicit release followed |
| ObjectStore.MetaIsLatest | object_store_v15.py:17-30 | tenant, case, size, class and creation are those of the latest put; retention is the greatest end of any put, a day being 86400 seconds |
| ObjectStore.GetGivesWhatWasPut | object_store_v15.py:17-35 | reading back an upload gives its bytes, or two uploads collide |
| Merkle.MerkleRoot | evidence_anchor.py:22-28 | the level loop computes the recursively defined root |
| Merkle.RootIsTree | evidence_anchor.py:22-28 | the root is the top of the tree of hashes over the sorted leaves, left before right, the last node standing in for a missing right one |
| Merkle.RootOfPermutation | evidence_anchor.py:22-28 | the root depends only on the multiset of leaves |
| Merkle.RootFixesLeaves | evidence_anchor.py:22-28 | with equally many leaves, equal roots mean equal multisets of leaves, or two messages hashed for these roots collide |
| Merkle.OddListsShareTheirRoot | evidence_anchor.py:26 | from three leaves on, an odd list has the root of the list that repeats its greatest leaf |
| Anchor.AuditAt | evidence_anchor.py:30-38 | the first hashes of the audit file with their head and number, or the raise at a line without an event hash |
| Anchor.TakeMeans | evidence_anchor.py:30-38 | the first hashes for any count: cut at the end of the file, and counted from the end if negative |
| Anchor.CreateAnchor | evidence_anchor.py:46-54 | the payload records count, head, objects and root of the repository it is made from, or the audit file cannot be read |
| Anchor.LeavesMean | evidence_anchor.py:46-51 | leaves are exactly the audit hashes and object digests, each with its own tag in front |
| Anchor.VerifyAnchor | evidence_anchor.py:56-73 | the findings in order, each with its contents and present exactly when its part disagrees; none exactly when prefix, head, objects and root all agree |
| Anchor.MissingObjects | evidence_anchor.py:65 | the anchored digests that the repository lacks, sorted, each once |
| Anchor.CheckedIsReadable | evidence_anchor.py:30-38 | reading an audit file that checks never raises |
| Anchor.AnchorSurvivesGrowth | evidence_anchor.py:46-73 | an anchor verifies cleanly against its repository and all its append-only extensions |
| Anchor.CleanAnchorFixesAudit | evidence_anchor.py:56-73 | two repositories that verify cleanly agree on the anchored audit hashes up to order and on the head, or a collision is exhibited |
| Anchor.CleanAnchorFixesEvents | evidence_anchor.py:56-73 | if both audit logs are intact, they agree on the anchored entries one by one, or a collision is exhibited |
| AnchorRuns.AnchorOutlivesRun | evidence_anchor.py:46-73 | an anchor can be made at any moment of any legal run of the repository, and verifies cleanly however the run continues |
| FleetPolicy.FoldIsClosedForm | fleet_policy.py:109-125 | the drift state of any history is a closed form of its trailing clean heartbeats and the last dirty one, for every recovery setting |
| FleetCollector.Store.constructor | fleet_collector.py:91-94 | a new collector has empty tables |
| FleetCollector.Store.Receive | fleet_collector.py:91-135 | all three tables after an arrival, or the rejection with the tables unchanged |
| FleetCollector.ArrivalDecided | fleet_collector.py:91-121 | after any arrivals, the next is a replay exactly when its number does not exceed the last accepted one, a mismatch exactly when it is newer and names another hash, and otherwise becomes the next heartbeat |
| FleetCollector.IngestKeepsConsistent | fleet_collector.py:91-135 | every node's row stays the fold of its heartbeats, every node's heartbeats stay a rising linked chain, alerts stay those of the heartbeats |
| FleetCollector.NoDuplicateRows | fleet_collector.py:93-119 | the uniqueness constraint on node and number is never what rejects a heartbeat |
| FleetCollector.RunConsistent | fleet_collector.py:91-135 | that consistency holds after any arrivals |
| FleetCollector.StoredStateIsClosedForm | fleet_collector.py:102-128 | after any arrivals the stored state and streak are the closed form of the node's accepted heartbeats |
| FleetCollector.AlertsExactly | fleet_collector.py:129-134 | alerts are exactly the high and critical findings of accepted heartbeats |
| FleetProtocol.FleetAgent.constructor | fleet_agent.py:72-74 | an agent without a state file starts at number zero and the all-zero hash |
| FleetProtocol.FleetAgent.Prepare | fleet_agent.py:141-149 | the next payload carries the next number and the saved hash |
| FleetProtocol.FleetAgent.Settle | fleet_agent.py:203-210 | the saved state advances to the answered payload |
| FleetProtocol.AcceptedIsNext | fleet_collector.py:91-100 | of everything ever sent, the collector takes only the next number, and only while agent and collector agree on it |
| FleetProtocol.NextSafe | fleet_agent.py:183-210 | every send, delivery, duplicate, answer, timeout and foreign heartbeat keeps the protocol invariant |
| FleetProtocol.HeartbeatsExact | fleet_agent.py:183-210 | after any run the accepted heartbeats are the agent's 1..k without gaps, each linked to the one before; k is the saved number or one more; when equal the hashes agree |
| FleetProtocol.StrandedStays | fleet_collector.py:91-100 | once the collector is ahead and the answer is gone, no step changes the agent's state or its accepted heartbeats |
| FleetProtocol.LostResponseStrands | fleet_collector.py:91-100 | so no run does: every later heartbeat is rejected |
| FleetProtocol.StrandedIff | fleet_agent.py:183-210 | an agent is stranded exactly when no continuation of the network lets its saved number advance |
| FleetProtocol.GivingUpStrands | fleet_agent.py:187-193 | after giving up on a request the agent can still advance exactly when the collector had not taken it |
| FleetProtocol.StrandingIsReachable | fleet_agent.py:183-210 | any agent can be stranded on its first heartbeat |
| TaskLeases.MetadataStore.constructor | enterprise_metadata_store.py:160-167 | a new store has no cases, collectors or tasks |
| TaskLeases.MetadataStore.CreateCase | enterprise_metadata_store.py:94-101 | the case becomes known, or the duplicate is refused; nothing else changes |
| TaskLeases.MetadataStore.RegisterCollector | enterprise_metadata_store.py:128-133 | the collector is enrolled and enabled with these capabilities, replacing an earlier enrolment |
| TaskLeases.MetadataStore.Put | enterprise_metadata_store.py:160-167 | a queued task without owner or attempts, or the error |
| TaskLeases.MetadataStore.FindTask | enterprise_metadata_store.py:184-185 | an oldest claimable task of an allowed kind, or none exactly when there is none |
| TaskLeases.MetadataStore.Claim | enterprise_metadata_store.py:168-188 | the picked task is leased with one more attempt; an unenrolled collector changes nothing |
| TaskLeases.ClaimMeans | enterprise_metadata_store.py:168-188 | a claim is granted an oldest task of a kind registered and, where kinds were asked for, asked for, that is queued or whose lease has run out, and none only where there is none; nothing else changes |
| TaskLeases.MetadataStore.Complete | enterprise_metadata_store.py:189-200 | the owner's task becomes terminal and unowned, or the error with nothing changed |
| TaskLeases.CompletionMeans | enterprise_metadata_store.py:189-200 | a completion succeeds exactly with a terminal state on a task whose owner column holds what was given as collector; nothing else changes |
| TaskLeases.LeasedIffOwned | enterprise_metadata_store.py:160-200 | after any calls a task is leased exactly when it has an owner and a deadline |
| TaskLeases.AttemptCountsClaims | enterprise_metadata_store.py:187 | after any calls the attempt field is the number of successful claims |
| TaskLeases.TaskIsAsPut | enterprise_metadata_store.py:160-200 | after any calls, a task has the case, kind, request and age that the call which put it gave, and its case existed then |
| TaskLeases.ReceiptIsLatest | enterprise_metadata_store.py:189-200 | after any calls, its receipt is that of the last completion that succeeded, and there is none before the first |
| TaskLeases.HistoriesAreShaped | enterprise_metadata_store.py:160-200 | after any calls a task was put once and first, claimed only before or after a lease has ended and never after a completion, completed by name only by its latest claimer and without a name only while unleased; its row says what its last step says |
| TaskLeases.HistoriesAreLawful | enterprise_metadata_store.py:160-200 | every task's claims each follow the end of the previous lease, only the latest claimer completes it and nothing follows a completion, if and only if every completion that succeeded named a collector |
| TaskLeases.LeasesNeverOverlap | enterprise_metadata_store.py:184-187 | in every run with a monotone clock, whoever completes what, a lease has ended before any later claim |
| TaskLeases.TerminalForever | enterprise_metadata_store.py:189-200 | a terminal task never changes again if the completions that succeed name a collector |
| TaskLeases.CompletionNeedsIdentity | enterprise_metadata_store.py:198-199 | a completion that succeeds ends a lease if and only if the caller gave a collector id |
| TaskLeases.AnonymousCompletion | enterprise_metadata_store.py:198-200 | without one, a task nobody claimed is completed and then completed again as failed |
| Containment.ContainmentGuard.constructor | containment_guard.py:23-29 | a new guard has no cached file state and is released |
| Containment.ContainmentGuard.Refresh | containment_guard.py:31-56 | the cache after a refresh and whether it raised, failing closed or open |
| Containment.ContainmentGuard.AllowInference | containment_guard.py:63-70 | the decision read off the refreshed cache |
| Containment.ContainmentGuard.AuthorizeTool | containment_guard.py:72-81 | the decision read off the refreshed cache |
| Containment.ContainmentGuard.RoutingTarget | containment_guard.py:83-90 | the target, the default, or the denial, read off the refreshed cache |
| Containment.ModesMean | containment_guard.py:63-90 | mode by mode: what inference, tools and routing are allowed |
| Containment.UnverifiedFailsClosed | containment_guard.py:31-56 | a control that does not verify denies inference and tools if the guard fails closed, and raises if not |
| Containment.CacheIsTransparent | containment_guard.py:31-90 | after any interleaving of writes, deletions and calls the guard uses the payload that re-verifying the file would give, or raises when that would, if stat triples tell contents apart |
| Containment.TransparentIff | containment_guard.py:31-90 | over all interleavings of writes of given versions, deletions and calls, the guard agrees with one that re-verifies if and only if versions with one stat triple have one verdict |
| Containment.SameStatIsNotReread | containment_guard.py:39-40 | without that proviso the old verdict stays in force |
| Containment.CreateControlRefusesIff | containment_control.py:45-66 | a control is refused exactly for an unknown mode or a failover without a target; otherwise it says what was asked |
| Containment.FailoverHasTarget | containment_control.py:45-66 | while every verifying control was made by create_control, failover routing is never denied |
| CausalPaths.BuildAdjacency | causal_graph_v2.py:39-42 | each node's successors are its permitted edges in order |
| CausalPaths.Paths | causal_graph_v2.py:43-52 | terminates with permitted contiguous walks of bounded length, shortest first, none longer than a shortest; of each length and last edge as many as the graph holds copies of a permitted edge into the target that a walk arrives at in time |
| CausalPaths.HitHasEnd | causal_graph_v2.py:43-52 | every path that may be found has one of its length and last edge among those returned |
| CausalPaths.CountIsDetermined | causal_graph_v2.py:43-52 | the number of paths is a matter of the graph and the bound alone |
| CausalGraph.GraphBuilder.constructor | causal_graph_v2.py:20 | no edges and no findings at the start |
| CausalGraph.GraphBuilder.Add | causal_graph_v2.py:21-24 | an edge of a known type, a finding for an unknown one, nothing for a missing end |
| CausalGraph.GraphBuilder.AddEvent | causal_graph_v2.py:25-35 | everything that one event states, in order |
| CausalGraph.Build | causal_graph_v2.py:19-36 | edges are the accepted, findings the refused statements of all events |
| CausalGraph.EdgesAreStated | causal_graph_v2.py:21-35 | an edge is in the graph exactly where an event states it through its parent, a cause, a known correlation, a metadata field or a typed edge, with both ends and a known type |
| CausalGraph.FindingsAreStated | causal_graph_v2.py:21-35 | a finding names exactly a statement with both ends and an unknown type |
| CausalGraph.Judge | causal_graph_v2.py:57-58 | supported exactly when bounded reachable; the count is that of all paths found, determined as in Paths, and the first twenty of them are shown |
| CausalGraph.Analyze | causal_graph_v2.py:54-60 | every claim judged against the graph, with a finding for each unsupported one |
| CausalGraph.CorrelationNeverSupports | causal_graph_v2.py:29-30 | erasing all correlation ids leaves causal reachability as it was, for every bound |
| AgenticGraph.Descendants | agentic_graph.py:37-44 | exactly the nodes at the end of a causal path of one or more edges |
| AgenticGraph.Predecessors | agentic_graph.py:59-67 | a breadth-first tree whose depths are shortest distances and that reaches the target exactly when a path does |
| AgenticGraph.TracePath | agentic_graph.py:58-73 | the reported path is the first shortest one in the order of successors, cut after its last null id, causal exactly when it holds none; unreachable targets have no path |
| AgenticGraph.FirstShortestUnique | agentic_graph.py:58-73 | the graph and its successor order leave one first shortest path |
| AgenticGraph.CutFollowsNull | agentic_graph.py:68-73 | what is left of a cut path starts behind an event without an id |
| AgenticGraph.NullIdCutsThePath | agentic_graph.py:68-73 | a graph whose only path to a reachable consequence is cut |
| AgenticIncident.Build | agentic_graph.py:23-35 | events by id and the causal edges |
| AgenticIncident.NodesMean | agentic_graph.py:23-24 | the event at an id is the last one with that id |
| AgenticIncident.EdgesAreLinks | agentic_graph.py:25-32 | an edge exists exactly where an event names a parent or a cause |
| AgenticIncident.SameLinksSameEdges | agentic_graph.py:25-34 | events that agree on ids, parents and causes have the same causal edges, whatever their correlations |
| AgenticIncident.ExplainsMeans | agentic_graph.py:58-73 | a line marked causal shows a shortest causal path, any other line starts behind an event without an id, and a seed that is its own consequence is shown alone |
| AgenticIncident.SeedOnACycle | agentic_graph.py:58-73 | two events that cause each other: the line of the seed about itself shows no edge |
| AgenticIncident.LineIsDetermined | agentic_graph.py:58-73 | the path and the flag of a line follow from the first shortest path |
| AgenticIncident.EventsThatCut | agentic_graph.py:23-35 | two events, one of them without an id, whose causal graph is the one in which the path is cut |
| AgenticIncident.TraceSeed | agentic_graph.py:53-74 | exactly one explained line for every consequence below a seed, and lines for nothing else |
| AgenticIncident.Analyze | agentic_graph.py:46-85 | consequences, agents and tools are exactly those of events causally reachable from a seed; a seed has one line for each consequence below it, as often as it is named, and there are no others |
| Divergence.AnomalousMeans | baseline_engine.py:114-126 | a score reaches the threshold exactly when the value is that many robust spreads, or standard deviations, from the centre; without any spread, exactly when it is not at the median |
| Divergence.ScoreEvents | baseline_engine.py:136-161 | the report rows in order, and for every depth with a row the greatest of its scores |
| Divergence.RowsMean | baseline_engine.py:136-158 | the report has a row exactly for every value of a target metric that an event gives at a depth where the baseline knows it, with its score |
| Divergence.AnomalousDepthHasAnomalousRow | baseline_engine.py:157-176 | a depth is anomalous exactly when one of its rows is, for every threshold |
| Divergence.Region | baseline_engine.py:193-206 | the second loop returns the whole maximal run that starts at the divergence |
| Divergence.Localise | baseline_engine.py:181-206 | the divergence starts the earliest maximal run that is long enough, the region is that run, and there is none exactly when no run is |
| Divergence.ScoreLog | baseline_engine.py:129-206 | the same stated on the report rows alone |
| Divergence.AnswerUnique | baseline_engine.py:181-206 | the observed depths leave one possible divergence and region |
| Divergence.LongRunIffWindow | baseline_engine.py:184-191 | a long enough maximal run exists exactly when that many adjacent depths are anomalous |
| Divergence.FirstLongRunIsFirstWindow | baseline_engine.py:184-191 | a run is the reported one exactly when no such window begins before it |
| Divergence.StricterFindsLater | baseline_engine.py:129-191 | fewer anomalous depths or a longer required run never report an earlier divergence |
| Divergence.StricterFindsNoMore | baseline_engine.py:129-191 | nor one where there was none |
| Percentile.PercentileAtKnot | baseline_engine.py:34-37 | at a whole position the percentile is that element of the sorted list |
| Percentile.PercentileBetweenKnots | baseline_engine.py:34-38 | between two neighbours the percentile divides the gap as the position does |
| Percentile.PercentileMonotone | baseline_engine.py:28-38 | no value only for no values; otherwise it grows with q, across the knots too |
| Percentile.PercentileExtremes | baseline_engine.py:28-38 | from the least value at 0 to the greatest at 1, both of them values of the list |
| Percentile.PercentileOfPermutation | baseline_engine.py:28-29 | the order of the values does not matter |
| AgentCard.CleanGenericCopies | a2a_jcs.py:126-136 | generic cleaning drops nothing: it is a copy |
| AgentCard.FilterDict | a2a_jcs.py:187-240 | each of the five dictionary loops keeps, cleans and drops what its rule says |
| AgentCard.PrepareAgentCard | a2a_jcs.py:141-185 | the prepared card, or the error where the source raises, in preparing or in the final check of numbers |
| AgentCard.PreparedMember | a2a_jcs.py:141-185 | which members of a card survive preparation, and as what; no others appear |
| AgentCard.PrepareRaisesIff | a2a_jcs.py:178-185 | preparing raises exactly when interfaces or skills are true or a number other than zero |
| AgentCard.NestedRulesMean | a2a_jcs.py:187-240 | which members of a provider, an interface, a skill, an extension and the capabilities survive |
| AgentCard.NestedObjectsTrimmed | a2a_jcs.py:187-240 | a provider, an interface and a skill keep all members but omissible ones, in order and unchanged |
| AgentCard.CleanObjectsMean | a2a_jcs.py:181-184 | objects in a cleaned list are filtered, anything else in it stays |
| AgentCard.IteratesAsPython | a2a_jcs.py:181-184 | what interfaces and skills run over: a list, the characters of a string, the keys of an object, nothing for an empty value |
| AgentCard.PreparedIsInteroperable | a2a_jcs.py:47-176 | a card whose numbers passed the check when it was loaded passes the check at the end of preparation |
| AgentCard.VanishesIff | a2a_jcs.py:187-195 | a provider loses all its members exactly when each is optional and empty or default |
| AgentCard.TopRuleStableIff | a2a_jcs.py:150-174 | every top-level member is prepared once and for all except a provider that vanishes |
| AgentCard.PrepareTwiceIff | a2a_jcs.py:141-176 | preparation is idempotent if and only if the provider does not vanish |
| AgentCard.PrepareTwiceDiffers | a2a_jcs.py:158-161 | a card whose provider holds only an empty name is prepared differently the second time |
| AgentCard.PreparedIsValid | a2a_jcs.py:141-176 | a prepared card is again a well-formed object without repeated members |
| CardSigning.PrepareIgnoresSignatures | a2a_jcs.py:151-152 | preparation does not depend on the signatures member, whatever it holds |
| CardSigning.SignCardSteps | a2a_agent_card_crypto.py:220-230 | signing appends one entry over the prepared card and leaves preparation unchanged |
| CardSigning.ProtectedTextReads | a2a_agent_card_crypto.py:224-226 | the protected text decodes to compact JSON with alg, kid, typ and, where there is one, jku, in the order of these names |
| CardSigning.SigningInputReads | a2a_agent_card_crypto.py:171-227 | what is signed is the protected text, a full stop, and base64url that decodes to the canonical text of the card |
| CardSigning.FreshSignatureVerifies | a2a_agent_card_crypto.py:171-182 | a signature verifies over the signing input of the card it was made for, through base64url and back |
| CardSigning.EverySignatureStands | a2a_agent_card_crypto.py:171-182 | after any sequence of signings each signature still verifies over the signing input of the card, and earlier ones are as valid as before |
| CardSigning.SigningInputUnambiguous | a2a_agent_card_crypto.py:171-227 | equal signing inputs mean the same protected header text and cards equal up to member order, and conversely |
| CardVerification.VerifyCard | a2a_agent_card_crypto.py:137-199 | one verdict for every listed signature, in order; the count is that of the entries a trusted key proves; no result where preparing or checking the card raises |
| CardVerification.VerdictMeans | a2a_agent_card_crypto.py:145-186 | a signature is valid exactly when its header passes and a trusted key of its key id, usable for its algorithm, verifies its decoded bytes; untrusted and invalid are told apart likewise |
| CardVerification.RejectingKeysProveNothing | a2a_agent_card_crypto.py:171-186 | where no trusted key verifies anything, no signature counts |
| CardVerification.FreshSignatureIsValid | a2a_agent_card_crypto.py:145-186 | a signature passes header checks, key selection and verification whenever policy allows its algorithm and the trust store holds a usable key |
| CardVerification.SigningKeepsVerdicts | a2a_agent_card_crypto.py:137-230 | after any sequence of signings earlier signatures keep their verdicts, and every new one whose signer is accepted is valid |

## Left out

- Time is an integer everywhere. The source compares ISO strings; a string without a fraction of a second sorts after the same second with one, which the model does not show.
- TaskLeases.MetadataStore.Claim: each call is one atomic step, as with the row lock of the PostgreSQL branch; the SQLite branch without it, SKIP LOCKED's skipping of rows another transaction holds, and SQL text are not modelled.
- FleetProtocol.NextSafe: enrolment, signature, schema and clock-skew checks of App.accept appear only as a flag that says whether the envelope reaches the store; `evaluate` is a parameter that gives the findings.
- Rfc8785.CanonicalIffEqualUpToMemberOrder: numbers are decimal digits and an exponent; that ECMAScript picks the shortest digits of a double, and that Python's integer range check treats 1 and 1.0 apart, are outside the model, as is the third-party rfc8785 package.
- PythonJson.StylesAreLawful: Python's text of a number is a parameter that must be injective and free of JSON's delimiters.
- json.loads and JSON.parse are not modelled: the parser here reads canonical text only, and a log line is an already parsed value, an unparsable text or a blank.
- Encodings.Base64UrlRoundTrip: Python's decoder also skips characters outside the alphabet; the model's decoder refuses them.
- CardSigning.SignCardSteps: the source copies the card shallowly, so the signatures list is shared with the caller's card; the model works on values. The number check at the end of preparation is taken as passed, as it is for every card loaded through strict_loads.
- CardSigning.FreshSignatureVerifies: speaks of the signing input and the signature alone; header checks and key selection are in CardVerification.
- CardSigning.EverySignatureStands: likewise, over a whole sequence of signings.
- CardVerification.VerifyCard: key lifecycle and provider binding, which decide trust rather than validity, the findings texts, and signatures given as a string or an object are not modelled; reading the header is a function that gives back what was written.
- AgentCard.FilterDict: the five cleaning functions are one loop over a rule given as a function.
- AgentCard.PrepareAgentCard: which numbers validate_i_json refuses is a parameter, the same for all numbers of one value, because 1 and 1.0 are one value here.
- AttestationLog.BuiltLogsVerify: two loggers that write one file at the same time are not modelled; nor are partial writes.
- RepositoryRuns.RunKeepsInv: a crash between the separate transactions of one add is not modelled; every call runs to its end.
- Anchor.VerifyAnchor: verification without a repository only reports that none was supplied; envelope signatures are taken as checked.
- Anchor.AuditAt: an event hash that is no string raises here at once, in the source only when its leaf is hashed.
- AgenticIncident.Analyze: the edge list and the edge counts of the report are not modelled; the default choice of seeds from metadata, and the KeyError of an event without an id there, are left to the caller; null and absent ids are one value.
- KmsEnvelope.DecryptFile: plaintext already written to the destination before an error is not modelled; header JSON is a pair of functions that invert each other.
- Percentile.PercentileMonotone: over the reals, for q between 0 and 1 as build_baseline uses it; rounding is not modelled.
- Divergence.ScoreEvents: values are reals; the highest-anomaly summary fields and the CSV and Markdown reports are not modelled.
- ObjectStore.LocalImmutableStore.Put: rewriting a read-only metadata file is taken to succeed; the S3 adapter and the verify sweep are not modelled.
- Containment.CacheIsTransparent: a file replaced between the stat and the read of one refresh is not modelled; each call sees one version.
- Command lines, HTTP servers, file permissions, fsync, cloud clients and the internals of cryptography are not part of this model.
