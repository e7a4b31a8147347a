# Verification of the vector generators and the repository's tools

This project models, in Dafny, the Python programs of this repository whose correctness is a statement about every
input, and proves those statements.

* **The hosted inventory** (`Statement`, `Utf8Laws`, `KnownBytes`, `Decoder`, `Canonical`, `Acceptance`,
  `AcceptanceLaws`): the canonical encoder, the strict decoder with its moving cursor, sorting, and the acceptance
  pipeline with its call log.
* **XEdDSA** (`Field`, `Groups`, `Curve`, `Extended`, `Clamp`, `XEdDSA`, `SignatureLaws`, `Verifier`, `Honest`): the
  key maps, coordinate recovery, extended coordinates, both signers and the verifier, and honest runs.
* **Identity and establishment** (`X25519`, `Montgomery`, `Birational`, `Agreement`, `Kem`, `Records`, `Identity`,
  `IdentityLaws`, `PairDigest`, `Initiator`, `InitiatorLaws`): the Montgomery ladder, clamping and cofactors, agreement
  with the curve's keys, the encapsulation-key check, the record codec, lookup, the pair digest and the initiator's
  ordered checks.
* **Text tools** (`Text`, `CodeSpans`, `SpanLaws`, `Markdown`, `MarkdownLaws`, `BreakPlaces`, `PlaceLaws`, `BlockLaws`,
  `ShellWords`, `WordLaws`, `Conflicts`, `ConflictLaws`, `EntryLaws`, `CodeView`, `ViewLaws`, `TestModules`,
  `HeaderLaws`, `SourceLaws`, `ModuleCuts`): the line splitter, the shell word splitter, the insertion-conflict
  resolver, and the Rust source view with its test modules removed.
* **Gate tools** (`CallWalk`, `StepReach`, `Json`, `Receipts`, `ReceiptLaws`, `ReceiptRefusals`): the breadth-first call
  walk, the step each file is shown at, and receipt validation.

Code that loops is a method proved against a function of the same values; what the code is for is then proved of that
function, in terms of the bytes, characters, records or points it is about. Bytes are numbers below 256, fixed-width
integers are subset types, and an exception is an `Err` value.

## What is assumed

The hash functions are parameters. The curve is a record of parameters, and `Curve.Lawful` lists what is known of
edwards25519 and not proved here: P and Q are prime (as the laws of their fields and multiples), -1 has a root and d has
none, the affine Edwards sum is a complete group law on the curve, and the base point has order Q. `Montgomery.Lawful`
lists the classical u-coordinate laws for doubling and for a sum and a difference. For the curve itself they are proved
from the Edwards sum (`Birational.EdwardsLineIsLawful`); for its twist, which the source has no points of, they are a
premise. Every theorem that uses such a record has it as a premise. Nothing is assumed of the ladder, of the extended
coordinates or of the byte encodings.

## What the proofs found

* A signature fails to verify exactly when its nonce is 0 modulo Q (`XEdDSA.SignVerifies`).
* The decoder's last comparison and the initiator's second identity-key rule never fire.
* `split_once` has three reasons to pass over a break; only the block test ever holds
  (`BreakPlaces.OnlyBlocksPassedOver`). Its description promises no line before a block start for any text. That holds
  exactly when no place either pass breaks at is followed by white space that hides a block
  (`BlockLaws.LaterLinesBeginBlocks`), so for every text whose white space is spaces (`BlockLaws.NoLineBeginsBlock`), and
  it fails for a full stop, a space, a tab and a `#` (`BlockLaws.TabUncoversBlock`). It also promises no line ending in a
  backslash. That holds exactly when the text, stripped, does not end in one (`BlockLaws.NoLineEndsSlashedIff`), and
  fails for a letter and a backslash (`BlockLaws.SlashedLine`).
* An array of shell words survives rewriting exactly when no word ends in a backslash (`ShellWords.ArrayRoundTripsIff`).
  The words of `a\ b` become `a` and `b` (`ShellWords.SlashedArray`).
* The conflict resolver's description asks for entries on each side before it keeps both. The code keeps both without
  them exactly when neither side is empty, the base is blank, one side alone has an entry and not both hold prose
  (`ConflictLaws.KeptWithoutEntriesIff`): in `x.sh`, the line `a` against the line `# c`
  (`ConflictLaws.CommandAndComment`).
* The test-module remover promises to remove only the test modules. It does exactly when the text with its own test
  modules cut out holds no header (`ModuleCuts.OnlyModulesGoIff`): one can form across a cut, and what it heads is then
  removed too. Of `#[cfg(test)]` twice, `mod a{}` and `mod b{}`, each on a line, only newlines are left
  (`ModuleCuts.DoubledAttributeTakesBoth`).
* A receipts document may give its schema version as `true` or `1.0` (`ReceiptLaws.ChecksInIff`).

## Model

| member | source | states |
|---|---|---|
| Statement.BindingOrderThen | tacenta-test-vectors/generate-inventory-vectors.py:278-282 | comparing two encoded bindings byte by byte, whatever follows them, is comparing (device id, key, capabilities, missing predecessor before present), although encodings have 45 or 77 bytes; equal bindings leave the comparison to what follows |
| Statement.BindingOrder | tacenta-test-vectors/generate-inventory-vectors.py:278-282 | byte order on bindings is the structural order, and equal bytes mean equal bindings |
| Statement.RevocationOrder | tacenta-test-vectors/generate-inventory-vectors.py:301-302 | byte order on revocations is (binding, terminal), and equal bytes mean equal revocations |
| Parsing.ManyExact | tacenta-test-vectors/generate-inventory-vectors.py:402-407 | a list parser accepts exactly the concatenated encodings of items its item parser accepts, and leaves exactly the rest |
| Decoder.BindingsExact | tacenta-test-vectors/generate-inventory-vectors.py:384-397 | the binding parser accepts exactly the encodings of bindings with 32-byte keys and the one capability, and leaves what follows |
| Decoder.RevocationsExact | tacenta-test-vectors/generate-inventory-vectors.py:407 | the same for revocations |
| Decoder.FieldsSound | tacenta-test-vectors/generate-inventory-vectors.py:371-407 | whatever the layout parse reads re-encodes to the bytes it consumed |
| Decoder.FieldsComplete | tacenta-test-vectors/generate-inventory-vectors.py:371-407 | every statement of the right shape is read back from its encoding, followed by anything |
| Decoder.RulesAreValidity | tacenta-test-vectors/generate-inventory-vectors.py:410-421 | on a parsed statement the byte comparisons and byte sets decide exactly the structural rules: order, distinctness, disjointness, generation bounds |
| Decoder.DecodesExactlyEncodings | tacenta-test-vectors/generate-inventory-vectors.py:353-425 | without the last comparison the decoder accepts exactly the encodings of valid statements, each as the statement encoded |
| Decoder.ReencodingNeverDiffers | tacenta-test-vectors/generate-inventory-vectors.py:422-424 | the final re-encoding comparison never fires: dropping it changes no answer on any byte string |
| Decoder.RoundTrip | tacenta-test-vectors/generate-inventory-vectors.py:317-326 | decoding undoes encoding on every valid statement |
| Decoder.EncodingIsInjective | tacenta-test-vectors/generate-inventory-vectors.py:317-326 | two different valid statements never share their bytes |
| Decoder.Reader.Take | tacenta-test-vectors/generate-inventory-vectors.py:357-363 | the cursor takes the next n bytes and moves past them, or refuses when fewer are left |
| Decoder.Reader.TakeBinding | tacenta-test-vectors/generate-inventory-vectors.py:384-397 | reading a binding at the cursor returns and leaves what the parse function says of the bytes ahead, refusals included |
| Decoder.Reader.TakeFields | tacenta-test-vectors/generate-inventory-vectors.py:371-407 | reading all fields in order does the same for the whole layout |
| Decoder.CheckRules | tacenta-test-vectors/generate-inventory-vectors.py:410-421 | the loops over revocations and neighbours return the first rule broken, in the code's order |
| Decoder.Decode | tacenta-test-vectors/generate-inventory-vectors.py:353-425 | the decoder with its moving cursor computes the decoding function on every byte string, with the same refusal |
| Statement.ValidMeans | tacenta-test-vectors/generate-inventory-vectors.py:372-421 | a statement is valid exactly within the limits in numbers: 1 to 256 bytes of UTF-8 account, at most 8 active and 8 revoked entries of 32-byte keys and capability 1, terminal generations above the floor and not above the statement's, no entry in both lists, both in order |
| Utf8Laws.WellFormedIff | tacenta-test-vectors/generate-inventory-vectors.py:377-380 | the account is taken as UTF-8 exactly when it is the bytes of a sequence of Unicode scalar values |
| KnownBytes.FixedBytes | tacenta-test-vectors/generate-inventory-vectors.py:502-507 | the bytes of the statement the source keeps as a fixed case |
| KnownBytes.ReplacedBytes | tacenta-test-vectors/generate-inventory-vectors.py:278-326 | the bytes of a statement with a revoked binding that replaced another |
| KnownBytes.DomainIs | tacenta-test-vectors/generate-inventory-vectors.py:41 | the domain bytes are the text they spell |
| Canonical.SortedIsValid | tacenta-test-vectors/generate-inventory-vectors.py:328-334 | sorting a statement makes it valid exactly when the other rules hold and no entry is repeated |
| Canonical.SortedIsAccepted | tacenta-test-vectors/generate-inventory-vectors.py:328-334 | the decoder reads the sorted statement back, with the same entries, exactly in those cases |
| Canonical.SortedFixesValid | tacenta-test-vectors/generate-inventory-vectors.py:328-334 | sorting leaves a valid statement as it is |
| Sorting.SortSorts | tacenta-test-vectors/generate-inventory-vectors.py:328-334 | a sort by key returns the same items in ascending order of key |
| Acceptance.FirstFailureWins | tacenta-test-vectors/generate-inventory-vectors.py:453-497 | a failure is returned exactly when its check fails and every check before it in the fixed order passes |
| Acceptance.AcceptedIff | tacenta-test-vectors/generate-inventory-vectors.py:453-497 | a statement is accepted exactly when every check passes |
| AcceptanceLaws.SignedMeans | tacenta-test-vectors/generate-inventory-vectors.py:453-461 | a statement is signed exactly when it is valid and its bytes come before the last 64 |
| AcceptanceLaws.OutcomeMeans | tacenta-test-vectors/generate-inventory-vectors.py:453-497 | a signed statement is accepted, or refused for a reason, by what each check asks of it in its own terms: the first issuer listed that names it verifies its bytes, every active and every revoked key is an identity key, no active and no revoked entry is refused, and so on in order |
| AcceptanceLaws.EntriesAt | tacenta-test-vectors/generate-inventory-vectors.py:481 | the entries are the active bindings in order and then the revoked ones |
| AcceptanceLaws.LogMeans | tacenta-test-vectors/generate-inventory-vectors.py:453-497 | on acceptance the log is the issuer, the freshness, every active binding, every revoked one and the statement; otherwise so many of these, up to and with the first entry refused |
| AcceptanceLaws.NotSigned | tacenta-test-vectors/generate-inventory-vectors.py:453-461 | what is no signed statement is refused before any hook is called |
| Acceptance.LogIsPrefix | tacenta-test-vectors/generate-inventory-vectors.py:453-497 | the call log is a beginning of the one list of calls the statement fixes, and all of it on acceptance |
| Acceptance.LogUnderPermittingPolicy | tacenta-test-vectors/generate-inventory-vectors.py:453-497 | the log under any policy is a beginning of the log the same input gives under the policy that refuses nothing, and under any policy that accepts it |
| Acceptance.NoEarlyHook | tacenta-test-vectors/generate-inventory-vectors.py:453-497 | no binding or statement hook is logged unless signature, freshness, distinct devices and every active and revoked key passed |
| Acceptance.AskedStops | tacenta-test-vectors/generate-inventory-vectors.py:484-493 | the entries asked about are those up to and with the first refused |
| Acceptance.DistinctIsSetSize | tacenta-test-vectors/generate-inventory-vectors.py:478-480 | as many different device ids as active bindings means no device is listed twice |
| Acceptance.AcceptSigned | tacenta-test-vectors/generate-inventory-vectors.py:453-497 | the pipeline, its log growing hook by hook, returns the outcome and the log of the reference pipeline |
| Field.CandidateRoot | tacenta-test-vectors/generate-inventory-vectors.py:101-113 | s^((p+3)/8) squares to s or to its opposite whenever s has a root, for p = 5 modulo 8 |
| Curve.SourceConstants | tacenta-test-vectors/generate-inventory-vectors.py:36-37 | the source's P and Q meet the size conditions the proofs use |
| Curve.KeyMapRoundTrip | tacenta-test-vectors/generate-inventory-vectors.py:124-138 | mapping a point to its u-coordinate and back gives its y-coordinate, for every reduced y but 1, where the map divides by zero |
| Curve.RecoverXFinds | tacenta-test-vectors/generate-inventory-vectors.py:101-113 | for every point of the curve the x found from y is the one with the parity asked for, or 0 when x is 0 |
| Curve.RecoverXOnCurve | tacenta-test-vectors/generate-inventory-vectors.py:101-113 | an x that is found always lies on the curve with y |
| Curve.EncodePointInjective | tacenta-test-vectors/generate-inventory-vectors.py:96-98 | two points of the curve never share their 32-byte encoding |
| Extended.AddStands | tacenta-test-vectors/generate-inventory-vectors.py:60-68 | addition in extended coordinates computes the affine Edwards sum and keeps X Y = Z T |
| Extended.AddIsGroupAdd | tacenta-test-vectors/generate-inventory-vectors.py:60-68 | on curve points it stands for the group's sum |
| Extended.NegStands | tacenta-test-vectors/generate-inventory-vectors.py:71-73 | negating X and T of a point's coordinates gives coordinates of its opposite |
| Extended.Mul | tacenta-test-vectors/generate-inventory-vectors.py:76-89 | double-and-add returns coordinates that stand for the scalar multiple, and dividing by Z gives that point |
| Clamp.ScalarRange | tacenta-test-vectors/generate-inventory-vectors.py:145-150 | every clamped scalar is a multiple of 8 in [2^254, 2^255) |
| Clamp.ScalarValue | tacenta-test-vectors/generate-inventory-vectors.py:145-150 | the scalar is 2^254 and, of the secret, exactly bits 3 to 253 |
| Clamp.SameScalarIff | tacenta-test-vectors/generate-inventory-vectors.py:145-150 | two secrets have one scalar exactly when they agree on those bits |
| Clamp.ScalarNotMultiple | tacenta-test-vectors/generate-inventory-vectors.py:145-150 | no clamped scalar is a multiple of a group order that is 5 modulo 8 and above 2^252 |
| XEdDSA.HonestSignature | tacenta-test-vectors/generate-inventory-vectors.py:165-219 | a signature assembled for a scalar and a nonce verifies under that scalar's key exactly when the nonce is not zero |
| XEdDSA.SignVerifies | tacenta-test-vectors/generate-inventory-vectors.py:165-177 | for every secret, message and Z the normalising signer's signature verifies under the secret's public key, exactly when the derived nonce is not 0 modulo Q |
| XEdDSA.SignLeavingTheSignBitVerifies | tacenta-test-vectors/generate-inventory-vectors.py:180-191 | the same for the signer that keeps its scalar and carries the sign of x in the signature |
| SignatureLaws.SignMeans | tacenta-test-vectors/generate-inventory-vectors.py:165-177 | the normalising signer's nonce is the digest of 0xFE and 31 bytes 0xFF, its scalar, the whole message and z; R is the nonce times the base point and the number r + h a for the digest h of R, its point and the whole message |
| SignatureLaws.SignKeepingMeans | tacenta-test-vectors/generate-inventory-vectors.py:180-191 | the same of the other signer, with its own scalar and sign |
| SignatureLaws.VerifyMeans | tacenta-test-vectors/generate-inventory-vectors.py:194-219 | under a point's key a signature verifies exactly when the point is not of small order, the number is below Q and the first half encodes a point R, not of small order, with sB = R + hA for the digest h of R, A and the whole message |
| SignatureLaws.VerifiedKey | tacenta-test-vectors/generate-inventory-vectors.py:194-219 | whatever a signature verifies under is the key of such a point with x of the sign's parity |
| SignatureLaws.OtherMessage | tacenta-test-vectors/generate-inventory-vectors.py:194-219 | a signature of one message under an identity key is one of another exactly when their digests after R and A agree modulo Q |
| XEdDSA.PublicKeyIsIdentityKey | tacenta-test-vectors/generate-inventory-vectors.py:227-232 | every public key passes the identity-key rule |
| XEdDSA.SignatureIsUnique | tacenta-test-vectors/generate-inventory-vectors.py:194-219 | under one key and message two accepted signatures with the same R and sign bit are the same 64 bytes |
| Verifier.Verify | tacenta-test-vectors/generate-inventory-vectors.py:194-219 | the verifier computing in extended coordinates, with double-and-add, addition and negation, accepts exactly the signatures the verifier on points accepts |
| Honest.HonestStatement | tacenta-test-vectors/generate-inventory-vectors.py:453-528 | signing a valid statement with the named issuer's secret gives bytes the pipeline accepts with the full log, or refuses for its signature alone when the nonce is zero |
| X25519.Ladder | tacenta-test-vectors/generate-identity-vectors.py:188-210 | the ladder with deferred swaps computes what the ladder without swaps computes, on every scalar and u |
| X25519.MaskedMeans | tacenta-test-vectors/generate-identity-vectors.py:188-191 | of the u-coordinate's 32 bytes all bits but the highest count |
| Montgomery.DoubleStands | tacenta-test-vectors/generate-identity-vectors.py:196-209 | the ladder's doubling stands for the doubled point, the identity and u = 0 included |
| Montgomery.DiffAddStands | tacenta-test-vectors/generate-identity-vectors.py:196-209 | its differential addition stands for the sum of two points that differ by the base |
| Montgomery.PairStands | tacenta-test-vectors/generate-identity-vectors.py:192-209 | after the bits of k down to t are read the pair stands for (n P, (n + 1) P), n being those bits |
| Montgomery.OutputIsMultiple | tacenta-test-vectors/generate-identity-vectors.py:188-210 | the output is the u-coordinate of clamp(scalar) P, for every point P of the curve or twist with that u, u = 0 included |
| Montgomery.ClampedKills | tacenta-test-vectors/generate-identity-vectors.py:168-173 | in a group where 8 n kills the point, n an odd prime above every clamped scalar over 8, k P = 0 exactly when 8 P = 0 |
| Montgomery.ZeroOutput | tacenta-test-vectors/generate-identity-vectors.py:213-218 | the output is all zero exactly for the points 8 kills |
| Montgomery.ContributoryForEverySecret | tacenta-test-vectors/generate-identity-vectors.py:213-218 | whether an agreement is contributory is the same under the fixed secret and under every other |
| Birational.EdwardsLineIsLawful | tacenta-test-vectors/generate-identity-vectors.py:66 | with the source's d the u-coordinates of the curve's points obey the laws of doubling and of a sum and a difference, by the Edwards sum alone |
| Agreement.PublicKeyIsX25519 | tacenta-test-vectors/generate-inventory-vectors.py:160-162 | a public key is the X25519 output for its secret and the base point's key |
| Agreement.BaseIsNine | tacenta-test-vectors/generate-inventory-vectors.py:120-121 | with the source's BASE_Y that key is the u-coordinate 9 |
| Agreement.AgreementIsSymmetric | tacenta-test-vectors/generate-identity-vectors.py:188-210 | each of two secrets with the other's public key gives the same output |
| Agreement.LiftedPoint | tacenta-test-vectors/generate-identity-vectors.py:150-156 | a point lifted from a u-coordinate is on the curve, is not the identity, and has that u-coordinate |
| Agreement.CanonicalMeans | tacenta-test-vectors/generate-identity-vectors.py:265-268 | a key is canonical exactly when it has 32 bytes, the highest bit clear and a value below P |
| Agreement.IdentityKeyOf | tacenta-test-vectors/generate-identity-vectors.py:271-277 | the key of a point other than the identity is an identity key exactly when Q kills the point |
| Agreement.PlusTorsionAgrees | tacenta-test-vectors/generate-identity-vectors.py:300-310 | a key with a lifted small-order point added to its lifted point is canonical and agrees with the key under every secret; if the key is an identity key it is none |
| Kem.UnpackIsBase4096 | tacenta-test-vectors/generate-identity-vectors.py:314-324 | the unpacked coefficients are the base-4096 digits of the body read as one number |
| Kem.UnpackPack | tacenta-test-vectors/generate-identity-vectors.py:327-339 | unpacking undoes packing on every even list of 12-bit coefficients |
| Kem.PackUnpack | tacenta-test-vectors/generate-identity-vectors.py:314-324 | packing undoes unpacking on every body of a multiple of three bytes |
| Kem.RoundTripsIffBelow | tacenta-test-vectors/generate-identity-vectors.py:314-324 | decoding modulo q and encoding again gives the body back exactly when every coefficient is below q |
| Kem.KemInputOk | tacenta-test-vectors/generate-identity-vectors.py:314-324 | the loop accepts exactly the 1568-byte strings that pass the encapsulation-key check of section 7.2 of FIPS 203 |
| Kem.InputOkMeans | tacenta-test-vectors/generate-identity-vectors.py:314-324 | the check in numbers: 1568 bytes, and every 12-bit number in the first 1536 below 3329 |
| Kem.DrawnMeans | tacenta-test-vectors/generate-identity-vectors.py:332 | each coefficient is two bytes of the stream, the lower first, modulo 3329 |
| Kem.MakeKemPrekey | tacenta-test-vectors/generate-identity-vectors.py:327-339 | the key made holds the stream's coefficients and the seed, and passes the check |
| Records.DecodesExactlyEncodings | tacenta-test-vectors/generate-identity-vectors.py:426-455 | the decoder accepts exactly the encodings of records of 32-byte keys, although its key slices are unchecked |
| Records.ManySound | tacenta-test-vectors/generate-identity-vectors.py:438-455 | a read that ends within the data was within it all along, because the position only moves forward |
| Records.RoundTripIff | tacenta-test-vectors/generate-identity-vectors.py:426-455 | what was encoded is read back exactly when every key has 32 bytes |
| Records.Decode | tacenta-test-vectors/generate-identity-vectors.py:438-455 | the loops over records and keys compute the decoding function, with the same error |
| KnownBytes.RecordBytes | tacenta-test-vectors/generate-identity-vectors.py:426-435 | the bytes of a record of a current and a retired key |
| PairDigest.BytesLe | tacenta-test-vectors/generate-identity-vectors.py:343-348 | the byte loop decides lexicographic order |
| PairDigest.DigestSymmetric | tacenta-test-vectors/generate-identity-vectors.py:351-358 | digest or refusals do not depend on which key is named first |
| PairDigest.DigestRefusals | tacenta-test-vectors/generate-identity-vectors.py:351-358 | a digest of the two keys is given exactly when both pass; otherwise every refusal of either is named once, the decoding first |
| PairDigest.InputMeans | tacenta-test-vectors/generate-identity-vectors.py:351-358 | what is hashed is the label, the key that is not greater and the other |
| PairDigest.InputDeterminesPair | tacenta-test-vectors/generate-identity-vectors.py:351-358 | what is hashed determines the unordered pair of keys |
| PairDigest.VerificationNumberExact | tacenta-test-vectors/generate-identity-vectors.py:361-365 | the number is 60 digits with the value of the digest modulo 10^60 |
| Identity.LookupKey | tacenta-test-vectors/generate-identity-vectors.py:402-423 | the walk sorting indices into lists computes the lookup function |
| IdentityLaws.ClassifyMeans | tacenta-test-vectors/generate-identity-vectors.py:387-399 | a key is same, retired or new to a record, or the record malformed, by where the record holds it |
| IdentityLaws.LookupMeans | tacenta-test-vectors/generate-identity-vectors.py:402-423 | a lookup is refused for the first rule the key fails; otherwise its attribution, its retired list and its malformed list are those of the records that hold the key, have retired it, or hold a key that is not canonical |
| Identity.LookupPartitions | tacenta-test-vectors/generate-identity-vectors.py:387-423 | every record index falls in exactly one of the same, retired, malformed and new lists, by what the record holds, and every list ascends |
| Identity.AttributionMeans | tacenta-test-vectors/generate-identity-vectors.py:402-423 | what each attribution says of the records: one holder, several, only retired, none |
| Identity.LookupRearranged | tacenta-test-vectors/generate-identity-vectors.py:402-423 | permuting the records permutes the lists and keeps the kind of attribution, a contact following its record |
| InitiatorLaws.RefusedIff | tacenta-test-vectors/generate-identity-vectors.py:501-555 | every refusal is given exactly when what it says of the records and the bundle is so and nothing an earlier check says is; a session is what is left and holds what the lookup finds |
| Initiator.SessionIff | tacenta-test-vectors/generate-identity-vectors.py:501-555 | a session is established exactly when the expectation is met and the bundle is consistent, canonical, authentic, encapsulable and contributory |
| Initiator.SecondRuleUnreachable | tacenta-test-vectors/generate-identity-vectors.py:541-542 | the second identity-key refusal changes no outcome and no draw |
| Initiator.SessionAttribution | tacenta-test-vectors/generate-identity-vectors.py:501-555 | a session for a known contact is attributed to it or ambiguous, a first-contact session to none with empty lists |
| Initiator.Draws | tacenta-test-vectors/generate-identity-vectors.py:501-555 | only the KEM refusal leaves the draw open, and only a session or a non-contributory refusal follows one |
| Agreement.PublicKeyContributes | tacenta-test-vectors/generate-identity-vectors.py:213-218 | agreeing with the public key of any secret contributes |
| Honest.HonestBundle | tacenta-test-vectors/generate-identity-vectors.py:501-614 | a known contact's own signed bundle establishes exactly when neither nonce was zero, and is attributed to it or ambiguous |
| Honest.HonestX25519Bundle | tacenta-test-vectors/generate-identity-vectors.py:501-614 | the same with X25519 as the agreement and public keys as prekeys, where nothing about contributing is left to ask |
| CodeSpans.RenderText | tooling/reflow-shared-lists.py:310-330 | the rendering loop computes the rendering function |
| SpanLaws.SpanKept | tooling/reflow-shared-lists.py:310-330 | a code span runs from a run of backticks to the next run as long, and is kept with its white space and the runs of other lengths in it |
| SpanLaws.OpenSpanKept | tooling/reflow-shared-lists.py:310-330 | a run that none as long follows opens a span to the end |
| SpanLaws.OutsideSpans | tooling/reflow-shared-lists.py:310-330 | outside spans a run of white space becomes one space and any other character stays |
| Markdown.SplitPoints | tooling/reflow-shared-lists.py:250-283 | the scan with its depth and code-span variables computes the break list |
| Markdown.SplitText | tooling/reflow-shared-lists.py:286-307 | the two passes and the stripping compute the line list |
| BreakPlaces.PointsAreThePlaces | tooling/reflow-shared-lists.py:250-283 | the scan finds exactly the runs of spaces after a mark, outside code spans and (unless fine) brackets, and before a code span after a comma |
| PlaceLaws.PlaceMeans | tooling/reflow-shared-lists.py:250-283 | the places by their characters: after a full stop, semicolon or colon, or a comma before a backtick, outside brackets; with the finer ones after any comma and inside brackets |
| PlaceLaws.DepthMeans | tooling/reflow-shared-lists.py:268-271 | round and square brackets outside code spans open and close alike, never below zero |
| PlaceLaws.LongPieces | tooling/reflow-shared-lists.py:303-306 | a piece is broken again exactly when it is longer than 400 characters |
| BreakPlaces.OnlyBlocksPassedOver | tooling/reflow-shared-lists.py:289-291 | of the three reasons to pass over a break only the block test ever holds |
| BreakPlaces.SplitCutsAtPlaces | tooling/reflow-shared-lists.py:286-295 | one pass cuts the text at every such place whose text begins no block, and nowhere else |
| MarkdownLaws.SplitTextRenders | tooling/reflow-shared-lists.py:298-307 | for every text the lines joined by newlines render as the text, through both passes and any nesting of backtick runs |
| PlaceLaws.BlockStartMeans | tooling/reflow-shared-lists.py:245-247 | the text that begins a block, by its characters |
| BlockLaws.BlockStartStable | tooling/reflow-shared-lists.py:245-247 | a line that begins a block does so with a space and more text after it; one that begins none begins none then |
| BlockLaws.LaterLinesBeginBlocks | tooling/reflow-shared-lists.py:286-307 | for every text each line but the last ends in a mark and the last as the text stripped does, and no line after the first begins a block exactly when no place either pass breaks at is followed by white space that hides one |
| BlockLaws.NoLineEndsSlashedIff | tooling/reflow-shared-lists.py:298-302 | no line ends in a backslash exactly when the text stripped does not |
| BlockLaws.SlashedLine | tooling/reflow-shared-lists.py:298-307 | a letter and a backslash are a text whose one line ends in a backslash |
| BlockLaws.NoLineBeginsBlock | tooling/reflow-shared-lists.py:298-307 | in a text whose only white space is spaces no line after the first begins a block, and every line but the last ends in a mark |
| BlockLaws.TabUncoversBlock | tooling/reflow-shared-lists.py:298-307 | with a tab after the space a line can begin a block: the text, its two lines and the block |
| ShellWords.SplitWords | tooling/reflow-shared-lists.py:105-134 | the scan with its word and quote variables computes the words, or refuses an open quote |
| WordLaws.QuotedStays | tooling/reflow-shared-lists.py:105-134 | anything between two equal quotes, single or double, stays in the word, and the quotes with it |
| WordLaws.OpenQuoteRefuses | tooling/reflow-shared-lists.py:105-134 | a quote that is not closed refuses the text |
| WordLaws.SpaceSplits | tooling/reflow-shared-lists.py:105-134 | white space outside quotes, or a backslash before a newline, ends a word |
| WordLaws.OtherStays | tooling/reflow-shared-lists.py:105-134 | any other character goes into the word |
| WordLaws.ArrayWritten | tooling/reflow-shared-lists.py:141-144 | an array is written as a newline and each word behind two spaces and before a newline |
| WordLaws.LoopWritten | tooling/reflow-shared-lists.py:146-150 | a list is written with each word behind two spaces on a line of its own, every line before one ending in a space and a backslash |
| ShellWords.WordsAreWords | tooling/reflow-shared-lists.py:105-134 | every word is unbroken by unquoted white space with its quotes closed, and splits to itself |
| ShellWords.ArrayRoundTripsIff | tooling/reflow-shared-lists.py:141-144 | an array written one word to a line reads back without the backslashes its words end in, so as the same words exactly when none ends in one |
| ShellWords.SlashedArray | tooling/reflow-shared-lists.py:141-144 | the words of `a\ b` are read back from the rewritten array as `a` and `b` |
| ShellWords.LoopRoundTrips | tooling/reflow-shared-lists.py:146-150 | the list of a `for` written with continued lines always reads back as the same words |
| Conflicts.Resolve | tooling/resolve-insertion-conflicts.py:131-187 | the loops with their markers, counts and keys compute the merge, or the first refusal |
| EntryLaws.TrivialMeans | tooling/resolve-insertion-conflicts.py:72 | a line is trivial when it is blank, one of four shell words, or closing brackets with at most a comma or semicolon |
| EntryLaws.EntryMeans | tooling/resolve-insertion-conflicts.py:98-113 | the lines that are entries and those that are prose, by the kind of file |
| EntryLaws.KeyMeans | tooling/resolve-insertion-conflicts.py:87-95 | the key of a line: the import, the backticked name and the character after it, or none |
| EntryLaws.MergeMeans | tooling/resolve-insertion-conflicts.py:157-174 | what a conflict becomes, check by check: a changed line, a side the other holds, prose on both sides, no entry, a line or a key in both |
| EntryLaws.FirstBadIs | tooling/resolve-insertion-conflicts.py:175-186 | the first added line that is not alone decides, as repeated or as having other text |
| EntryLaws.MarkersAre | tooling/resolve-insertion-conflicts.py:71 | a file with a conflict between the four markers, and what it resolves to |
| ConflictLaws.SegmentsMean | tooling/resolve-insertion-conflicts.py:134-154 | a file is the text of the segments read from it |
| ConflictLaws.MergeHoldsBoth | tooling/resolve-insertion-conflicts.py:116-174 | a conflict becomes both sides or the side that holds the other, and each side is a subsequence of it |
| ConflictLaws.ResolveLosesNothing | tooling/resolve-insertion-conflicts.py:131-187 | each side's version of the file is a subsequence of the result |
| ConflictLaws.ResolveRepeatsNothing | tooling/resolve-insertion-conflicts.py:175-186 | every entry either side inserts is in the result once, and in a prose file alone under its key |
| ConflictLaws.ReadsBackIff | tooling/resolve-insertion-conflicts.py:134-154 | the text of segments is read back as them exactly when no line in one is the marker that would end its part |
| ConflictLaws.ResolveSwapped | tooling/resolve-insertion-conflicts.py:131-187 | exchanging the sides of any segments changes neither acceptance nor the multiset of lines; so of their files, when each is read back as its segments |
| ConflictLaws.MarkerEndsConflict | tooling/resolve-insertion-conflicts.py:131-187 | a file that resolves, and is refused with its sides exchanged, because one side holds a marker as a line |
| ConflictLaws.KeyIsNameAndMark | tooling/resolve-insertion-conflicts.py:87-95 | an entry led by a backticked name is keyed by the name and the mark after it, whatever its text |
| ConflictLaws.KeptWithoutEntriesIff | tooling/resolve-insertion-conflicts.py:157-172 | both sides are kept without an entry on each exactly when neither is empty, the base is blank, one side alone inserts an entry and not both hold prose |
| ConflictLaws.OneSideWithoutEntries | tooling/resolve-insertion-conflicts.py:157-172 | over an empty base, entries on one side alone give both sides in order, or the refusal when both hold prose |
| ConflictLaws.CommandAndComment | tooling/resolve-insertion-conflicts.py:157-172 | a command against a comment is kept as both lines, although the comment is no entry |
| CodeView.CodeView | tooling/check_authentication_boundary.py:327-394 | the scan computes the view |
| CodeView.BlockComment | tooling/check_authentication_boundary.py:347-362 | the nested-comment loop ends where the reference says |
| ViewLaws.PieceIs | tooling/check_authentication_boundary.py:315-394 | what the view hides from a place on is exactly a line comment, a nested comment, a character, byte, string or raw literal, told by its characters |
| ViewLaws.ViewFrom | tooling/check_authentication_boundary.py:327-394 | the view blanks such a piece but its newlines and goes on after it, and keeps the character where none begins |
| ViewLaws.NothingBegins | tooling/check_authentication_boundary.py:363-386 | a lifetime's quote begins nothing, nor does an r, b or c that goes on an identifier |
| CodeView.CommentsNest | tooling/check_authentication_boundary.py:347-362 | a comment with another comment in it runs to its own end |
| CodeView.QuoteEndMeans | tooling/check_authentication_boundary.py:322 | a string ends at the first quote with an even number of backslashes before it |
| CodeView.ViewKeeps | tooling/check_authentication_boundary.py:327-394 | the view has the text's length and newlines; what is hidden is a space and everything else is unchanged |
| HeaderLaws.HeaderMeans | tooling/check_authentication_boundary.py:432 | a module's header is the attribute, white space with a newline, `mod`, white space, a name and a brace, told by its characters |
| TestModules.MatchingBrace | tooling/check_authentication_boundary.py:397-412 | the walk returns the first closing brace that balances the one it starts at |
| TestModules.InsideIsOpen | tooling/check_authentication_boundary.py:397-412 | before that brace more are open than closed |
| TestModules.BlankTestModules | tooling/check_authentication_boundary.py:415-442 | the loop ends, with what cutting one module after another leaves, or the first refusal |
| TestModules.ModuleBalances | tooling/check_authentication_boundary.py:434-442 | a module takes as many opening as closing braces with it, and at least one |
| SourceLaws.RemovedKeeps | tooling/check_authentication_boundary.py:434-442 | cutting modules keeps the brace balance, deletes no newline and ends with no header left |
| SourceLaws.BlankedKeeps | tooling/check_authentication_boundary.py:415-442 | in the result braces balance, no test module is left, and every character is on its original line |
| SourceLaws.SourceLinesKept | tooling/check_authentication_boundary.py:327-442 | through view and removal every character left is the source's, or a blanked space, on its line in the source |
| ModuleCuts.OnlyModulesGoIff | tooling/check_authentication_boundary.py:415-442 | the result is the text with its own test modules, found in one pass from left to right, replaced by their newlines, exactly when no header stands in that text |
| ModuleCuts.DoubledAttribute | tooling/check_authentication_boundary.py:419-422 | with the attribute written twice what is left of the first makes a header with the module after the test module, and is removed with it |
| ModuleCuts.DoubledIs | tooling/check_authentication_boundary.py:419-422 | the literal text of such a case, with two modules of which one is a test module |
| ModuleCuts.DoubledAttributeTakesBoth | tooling/check_authentication_boundary.py:415-442 | of that text three newlines are left, although with its one test module gone the other module is still there |
| CallWalk.Walk | tooling/gate-inventory.py:114-135 | the breadth-first walk ends with exactly the files a chain of calls leads to, each at its shortest depth with the least caller there |
| CallWalk.WalkIsUnique | tooling/gate-inventory.py:114-135 | that determines the walk |
| StepReach.Setting.StepWalk | tooling/gate-inventory.py:138-144 | a combining step runs the files listed for it, any other what its walk finds |
| StepReach.StepWalkMeans | tooling/gate-inventory.py:138-144 | a step whose id is listed as combining runs exactly the files listed, each directly; any other what its walk finds |
| StepReach.LabelMeans | tooling/gate-inventory.py:158 | a step is shown by its id, or without one by its job and a phrase |
| StepReach.Reachability | tooling/gate-inventory.py:152-163 | for every file some step runs, a step no other comes before is shown |
| StepReach.OrderDoesNotMatter | tooling/gate-inventory.py:152-163 | the result is the same for every order of the steps, ties and repeats included |
| StepReach.DirectStepWins | tooling/gate-inventory.py:152-163 | a step that is not combining beats one that is, then the more direct, then the first by name |
| Receipts.ValidateReceipts | tooling/assurance_validation.py:94-162 | the loop with its seen, events and run ids computes the validation, or the first refusal |
| ReceiptLaws.AcceptedIff | tooling/assurance_validation.py:94-162 | acceptance is exactly: every receipt good, ids distinct, required ids present, one event and at most one run |
| ReceiptLaws.ChecksInIff | tooling/assurance_validation.py:101-108 | the documents whose receipts are looked at; the schema version is 1, true or 1.0 |
| ReceiptRefusals.DocumentRefusals | tooling/assurance_validation.py:101-108 | a document is refused for its version, then its candidate, then its list, each exactly when that is wrong |
| ReceiptRefusals.MadeWrongIs | tooling/assurance_validation.py:112-130 | the first thing wrong with how a receipt is made, field by field in the document's words |
| ReceiptRefusals.SaysWrongIs | tooling/assurance_validation.py:131-153 | the first thing wrong with what a receipt says, and then with its steps |
| ReceiptRefusals.FirstFaultDecides | tooling/assurance_validation.py:112-156 | the first receipt with a fault decides the refusal |
| ReceiptRefusals.ListRefusals | tooling/assurance_validation.py:157-161 | receipts without a fault are refused for their events, then their runs, then a required id that is missing |
| ReceiptLaws.StepFaultIff | tooling/assurance_validation.py:65-91 | the step check passes exactly when the recorded steps are the expected ones, all successful and not none |
| ReceiptLaws.RequiredStandsOnce | tooling/assurance_validation.py:94-162 | each required id stands once: passing, applicable, for the candidate, with exactly the expected successful steps |
| ReceiptLaws.ResultIsCanonical | tooling/assurance_validation.py:162 | the result is the receipts given, in strict order of id |
| ReceiptLaws.OrderDoesNotMatter | tooling/assurance_validation.py:94-162 | the receipts in another order validate to the same list |
| ReceiptLaws.ValidatedAgain | tooling/assurance_validation.py:94-162 | validating the result returns it |
| Receipts.CompareChecks | tooling/assurance_validation.py:165-173 | the comparison gives the first difference there is: an id that is no key, different ids, ids that do not sort, or an id the tables disagree about, of text ids the first; it succeeds exactly when there is none |
| ReceiptRefusals.KeyMeans | tooling/assurance_validation.py:167-168 | receipts are filed under one key exactly when their ids are equal to Python |
| ReceiptRefusals.ByIdMeans | tooling/assurance_validation.py:167-168 | under each key is the last receipt filed there |
| ReceiptRefusals.SortableMeans | tooling/assurance_validation.py:171 | the ids sort exactly when every two are both texts or both numbers |
| ReceiptLaws.ComparisonIff | tooling/assurance_validation.py:165-173 | on two accepted lists they agree exactly when the lists are equal, receipt by receipt |

## Left out

- Montgomery.OutputIsMultiple: takes the u-coordinate laws as a premise, met by the curve; that the twist meets them, and that every u has a point on one of the two, is not derived.
- Curve.RecoverXFinds: a point with x = 0 has only one x, so the sign asked for is not honoured there.
- ConflictLaws.ResolveSwapped: of files it speaks when each is read back as its segments; a file with a marker among its lines reads as other segments, and can then differ (`ConflictLaws.MarkerEndsConflict`).
- Receipts.CompareChecks: of several numeric ids that disagree, which one the refusal names is left open; of text ids it is the first.
- StepReach.Reachability: a step's command is given as the files it names; the pattern that finds calls and the lookup of a path among the tracked files are parameters.
- Hashes (SHA-256, SHA-512, SHAKE) and their collision resistance; primality of P and Q; completeness and associativity of the Edwards sum.
- The values of d, the root of -1 and the base point enter only through the laws they satisfy.
- Log entries of the acceptance pipeline are events, not formatted text, and refusal messages are names. Where the resolver would raise a type error while sorting mixed keys for its message, the model refuses.
- Packing a count or a length that does not fit its field raises in the source; the encoders here ask for lengths that fit.
- Regular expressions are small matchers written out; `\d` and `str.isalnum` are parameters.
- Splitting a file into lines and joining it again around the conflict resolver.
- JSON text parsing; a JSON number with a point or an exponent is a real, so rounding to a float, infinities and NaN are left out.
- `json_value_end`, `split_top`, `unescape_code_pipes`, `as_list` and `read_list` of tooling/reflow-shared-lists.py: further scans of the same kind.
- `_impl_spans` and `_param_list` of tooling/check_authentication_boundary.py, and the tools check-precondition-shapes, check-vectors and check-lifecycle-boundary-surface: easier members of the same kinds.
- `expected_from_document`: the expected steps are a parameter of validation.
- The fixed case tables, mutation lists, git, subprocesses, files and report printing.
- The Rust crates and the Lean model are not part of this model.
