# Sunrise: verified models of its arithmetic, host state machine and codecs

This project models the parts of Sunrise where a mistake is hardest to see, and proves what they are
meant to do for all inputs, all runs and all interleavings. `dafny verify dfyconfig.toml` checks all of
it.

**Arithmetic.** The two hand-written interleaved Montgomery multiplications (sixteen 64-bit limbs with a
variable modulus, seven 32-bit words with the P-224 prime) are instances of one development that is
generic in limb base and limb count (`Limbs`, `Montgomery`, `Residues`, `WordChains`). `Modular1024` and
`Wire1024` carry it to modular products, powers and the wire form. `FieldP224` proves every field
operation canonical and exact; `AffineP224`, `JacobianP224` and `GroupP224` prove that the Jacobian
formulas refine the affine group law in every exceptional case and that the select-based ladder computes
scalar multiples; `CurveP224` proves the word-level code against them. `KeyCodec` and `AgreementP224` add
the DER key codec and the agreement both peers run. The curve is secp224r1 of appendix D.1.2.2 of FIPS
186-4.

**The Activity Host.** `HostRuntime.Host` is the state behind the Host lock: the bounded instance table
with least-recently-touched eviction, the event ring (`EventFeed`), the incident history (`Incidents`),
the ordered reducer queue, the output lanes and the accepted-input feed (`MissionInputs`). Every public
method is one atomic step. `Valid()` is what every run between two resets keeps: the table mirrors the
event history (`OutputLives`, `HostTable`), held incidents keep their rows and the queue its counters
(`HostLinks`), and every owed mission input has its row. `HostSteps` holds the step lemmas, and `HostSlice`
what one service slice does: each queued row as a relation between the states before and after it, and
what a whole drained queue therefore did.

**The seqlock.** `Seqlock` interleaves writers and readers of the published player position in single
loads, stores and bumps.

**Fast forms and codecs.** `Scan` proves the anchored signature scan equal to the scan that tries every
offset, for any histogram. `JsonGrammar`, `JsonParser` and `JsonReader` prove that the settings checker
accepts exactly the RFC 8259 documents of height at most 16. `ProtobufWire` and `Protobuf` prove both
writers and the reader, payloads that overlap the output included. `BitStream` and `BitRaw` prove the
unaligned bit stream.

Two mathematical facts are hypotheses wherever they are needed, and are never assumed silently:
`Prime(P)` (primality of the field prime) and `Associative()` (associativity of the affine addition on
the curve). Everything else, Fermat's little theorem included, is proved here.

One promise is false of the code as it stands. Recovering a faulted mission lowers the issued cursor to
the committed one. If the feed still holds a row of that generation past the committed cursor, its
sequence is issued a second time, and then two retained rows are owed for it. This holds for every such
row (`MissionInputs.UndrainedDuplicates`). `MissionInputs.RecoverExact` gives the exact condition:
whatever inputs are accepted after it, recovery keeps one row for every owed sequence if and only if no
retained row of the generation lies past its committed cursor. No owed input is dropped either way
(`MissionInputs.OwedRetained`). A caller can meet the condition by reading the feed while the generation
is faulted and recovering it with no input of it accepted in between; accepting one does not ask whether
the generation is faulted, and breaks the condition again (`MissionInputs.ReadThenRecover`). Reading
right after the recovery, before an input is accepted, serves as well (`MissionInputs.RecoverThenRead`).

The scriptable lane shares the output slot but commits and ends whole bursts of bodies at one revision,
so one terminal event for each commit is a promise of the Auth-state and incident lanes only.
`HostSteps.RunLives` proves it of every run, whatever the scriptable lane does, and that the scriptable
lane does not run while either of them holds the slot. At most one control of a generation is queued,
but for burst bodies, which may follow it (`HostLinks.QueueOk`, `HostLinks.OneControlExactly`).

## Model

| member | source | states |
|---|---|---|
| `WordChains.AddWords` | Sunrise/src/middleware/crypto/ecc_p224_curve.cpp:64-74 | sum plus carry out times the radix equals the sum of the inputs, for any limb base and count and with the output aliasing an input |
| `WordChains.SubtractWords` | Sunrise/src/middleware/crypto/ecc_p224_curve.cpp:83-93 | difference plus subtrahend equals minuend plus borrow times the radix, so the borrow is one exactly when the minuend is smaller; aliasing allowed |
| `Montgomery.MultiplyAccumulate` | Sunrise/src/middleware/crypto/modular_1024.cpp:34-45 | low half plus high half times the base is exactly left*right + addend + carry; the high half fits one limb |
| `Montgomery.AddRow` | Sunrise/src/middleware/crypto/modular_1024.cpp:103-109 | one row adds exactly left times one limb of right to the running value, with at most one in the top headroom limb |
| `Montgomery.ReduceRow` | Sunrise/src/middleware/crypto/modular_1024.cpp:111-121 | the reduction step adds factor times the modulus and divides by the base exactly, sliding the window one limb |
| `Montgomery.Interleave` | Sunrise/src/middleware/crypto/modular_1024.cpp:101-122 | for any base and limb count, the loops leave t with t*b^n = left*right + q*m and t < 2m, so two headroom limbs suffice |
| `Residues.Finish` | Sunrise/src/middleware/crypto/modular_1024.cpp:123-128 | one conditional subtraction turns that t into the canonical representative: below m and congruent to left*right/R |
| `Modular1024.LessThan` | Sunrise/src/middleware/crypto/modular_1024.cpp:192-201 | true exactly when the left number is below the right one |
| `Modular1024.ReduceOnce` | Sunrise/src/middleware/crypto/modular_1024.cpp:53-75 | a value below 2m, overflow bit included, becomes its canonical residue |
| `Modular1024.DoubleValue` | Sunrise/src/middleware/crypto/modular_1024.cpp:139-145 | doubling in place is 2x mod m |
| `Modular1024.NewtonStep` | Sunrise/src/middleware/crypto/modular_1024.cpp:83-86 | one Newton round squares the modulus up to which the inverse is exact |
| `Modular1024.NegatedInverse` | Sunrise/src/middleware/crypto/modular_1024.cpp:82-88 | for every odd limb the six rounds give v with v*limb = -1 mod 2^64 |
| `Modular1024.MontgomeryMultiply` | Sunrise/src/middleware/crypto/modular_1024.cpp:97-132 | for every odd normalized m and left < m: output < m and output*2^1024 = left*right mod m, aliased outputs included |
| `Modular1024.SquaredRadix` | Sunrise/src/middleware/crypto/modular_1024.cpp:214-224 | 1024 doublings of R - m give R^2 mod m |
| `Modular1024.Prepare` | Sunrise/src/middleware/crypto/modular_1024.cpp:204-228 | accepts exactly the odd normalized moduli and derives true constants: inverse*m[0] = -1 mod 2^64 and the factor is R^2 mod m |
| `Modular1024.Add` | Sunrise/src/middleware/crypto/modular_1024.cpp:231-240 | (left + right) mod m for reduced inputs, aliased outputs included |
| `Modular1024.Multiply` | Sunrise/src/middleware/crypto/modular_1024.cpp:243-251 | (left * right) mod m for reduced inputs, aliased outputs included |
| `Modular1024.HighestBit` | Sunrise/src/middleware/crypto/modular_1024.cpp:265-271 | the exponent is below 2 to the returned position, and its bit just under it is set unless it is zero |
| `Modular1024.PowerLoop` | Sunrise/src/middleware/crypto/modular_1024.cpp:272-277 | square-and-multiply leaves the Montgomery form of base^exponent |
| `Modular1024.Power` | Sunrise/src/middleware/crypto/modular_1024.cpp:254-283 | base^exponent mod m for every 1024-bit exponent, zero included, with the output aliasing base or exponent |
| `Wire1024.ImportBigEndian` | Sunrise/src/middleware/crypto/modular_1024.cpp:156-164 | the limbs denote the big-endian value of the 128 bytes |
| `Wire1024.ExportBigEndian` | Sunrise/src/middleware/crypto/modular_1024.cpp:167-173 | the 128 bytes denote the number, left zero padded |
| `Wire1024.WireRoundTrip` | Sunrise/src/middleware/crypto/modular_1024.cpp:156-173 | export undoes import byte for byte, and import undoes export limb for limb |
| `FieldP224.PrimeForm` | Sunrise/src/middleware/crypto/ecc_p224_curve.cpp:23-25 | the prime the words denote is 2^224 - 2^96 + 1 |
| `AffineP224.CoefficientValue` | Sunrise/src/middleware/crypto/ecc_p224_curve.cpp:32-34 | the coefficient words denote b of secp224r1 |
| `FieldP224.OrderValue` | Sunrise/src/middleware/crypto/ecc_p224_curve.cpp:29-31 | the order words denote n of secp224r1, so a valid scalar is 1 to n - 1 for that n |
| `FieldP224.ConstantValues` | Sunrise/src/middleware/crypto/ecc_p224_curve.cpp:24-48 | the limb constants denote p, p - 2, R mod p, a representative of R^2, and the word inverse -1/p |
| `FieldP224.DecodeZero` | Sunrise/src/middleware/crypto/ecc_p224_curve.cpp:96-102 | a canonical Montgomery value represents zero exactly when its words are zero |
| `FieldP224.DecodeInjective` | Sunrise/src/middleware/crypto/ecc_p224_curve.cpp:124-130 | two canonical Montgomery values that represent the same element are equal |
| `FieldP224.IsZero` | Sunrise/src/middleware/crypto/ecc_p224_curve.cpp:96-102 | true exactly when the value is zero, hence exactly when a canonical value represents 0 mod p |
| `FieldP224.LessThan` | Sunrise/src/middleware/crypto/ecc_p224_curve.cpp:105-108 | true exactly when the left value is below the right one |
| `FieldP224.Select` | Sunrise/src/middleware/crypto/ecc_p224_curve.cpp:117-122 | the output holds the first value when taken and the second otherwise, aliasing included |
| `FieldP224.FieldAdd` | Sunrise/src/middleware/crypto/ecc_p224_curve.cpp:175-181 | the sum stays canonical and represents the sum mod p |
| `FieldP224.FieldSubtract` | Sunrise/src/middleware/crypto/ecc_p224_curve.cpp:184-190 | the difference stays canonical and represents the difference mod p |
| `FieldP224.MontgomeryMultiply` | Sunrise/src/middleware/crypto/ecc_p224_curve.cpp:130-172 | the product stays below p, times R it is the product of the factors mod p, and it represents their product |
| `FieldP224.ToMontgomery` | Sunrise/src/middleware/crypto/ecc_p224_curve.cpp:193-195 | the result represents the plain value |
| `FieldP224.FromMontgomery` | Sunrise/src/middleware/crypto/ecc_p224_curve.cpp:198-202 | the plain result is the element represented, so the two conversions undo each other |
| `FieldP224.MontgomeryInverse` | Sunrise/src/middleware/crypto/ecc_p224_curve.cpp:209-220 | the result represents v^(p-2) |
| `NumberTheory.FermatInverse` | Sunrise/src/middleware/crypto/ecc_p224_curve.cpp:204-208 | for prime p and v not 0 mod p, v^(p-2)*v = 1 mod p |
| `GroupP224.FermatUnit` | Sunrise/src/middleware/crypto/ecc_p224_curve.cpp:204-220 | given primality of p, the represented v^(p-2) is the inverse of every nonzero element |
| `AffineP224.SumOnCurve` | Sunrise/src/middleware/crypto/ecc_p224_curve.cpp:266-340 | the affine chord and tangent sum of two curve points is on the curve |
| `AffineP224.SumLine` | Sunrise/src/middleware/crypto/ecc_p224_curve.cpp:222-340 | p, q and the reflection of their sum lie on one line, the tangent when p is q, and the three abscissas add up to the square of its slope |
| `AffineP224.SumVanishes` | Sunrise/src/middleware/crypto/ecc_p224_curve.cpp:266-340 | two curve points add up to infinity exactly when they are reflections of each other |
| `JacobianP224.DoubleRefines` | Sunrise/src/middleware/crypto/ecc_p224_curve.cpp:227-264 | the doubling formulas represent the affine double of the represented point |
| `JacobianP224.DoubleInfinity` | Sunrise/src/middleware/crypto/ecc_p224_curve.cpp:222-264 | doubling infinity stays infinity |
| `JacobianP224.AddRefines` | Sunrise/src/middleware/crypto/ecc_p224_curve.cpp:272-340 | the addition formulas represent the affine sum in every case: either side infinite, equal, opposite, general |
| `GroupP224.JacobianCurveIff` | Sunrise/src/middleware/crypto/ecc_p224_curve.cpp:50-55 | a triple with z nonzero satisfies the projective equation exactly when the point it represents is on the curve |
| `GroupP224.DoubleKeepsCurve` | Sunrise/src/middleware/crypto/ecc_p224_curve.cpp:227-264 | z = 0 or Y^2 = X^3 - 3XZ^4 + bZ^6 mod p is kept by doubling |
| `GroupP224.AddKeepsCurve` | Sunrise/src/middleware/crypto/ecc_p224_curve.cpp:272-340 | the same property is kept by addition, through every case |
| `GroupP224.RepresentsUnique` | Sunrise/src/middleware/crypto/ecc_p224_curve.cpp:50-55 | a triple represents at most one point |
| `GroupP224.AffineStepsRepresent` | Sunrise/src/middleware/crypto/ecc_p224_curve.cpp:347-359 | the conversion steps give the affine point a finite triple represents |
| `GroupP224.TimesAdd` | Sunrise/src/middleware/crypto/ecc_p224_curve.cpp:397-423 | given associativity, (j + k)P = jP + kP |
| `GroupP224.TimesTimes` | Sunrise/src/middleware/crypto/ecc_p224_curve.cpp:397-423 | given associativity, j(kP) = (jk)P |
| `GroupP224.LadderTimes` | Sunrise/src/middleware/crypto/ecc_p224_curve.cpp:405-417 | after each bit the accumulator represents (bits read so far) times P |
| `GroupP224.LadderCorrect` | Sunrise/src/middleware/crypto/ecc_p224_curve.cpp:398-417 | after all 224 bits it represents scalar times P |
| `CurveP224.JacobianDouble` | Sunrise/src/middleware/crypto/ecc_p224_curve.cpp:227-264 | the imperative doubling computes the doubling steps on the represented elements, in place as well |
| `CurveP224.JacobianAdd` | Sunrise/src/middleware/crypto/ecc_p224_curve.cpp:272-340 | the imperative addition computes the addition steps, every early return included, aliasing either input |
| `CurveP224.ToAffine` | Sunrise/src/middleware/crypto/ecc_p224_curve.cpp:347-359 | the stored plain coordinates are the affine steps of the triple |
| `CurveP224.PointOnCurve` | Sunrise/src/middleware/crypto/ecc_p224_curve.cpp:369-390 | true exactly when both coordinates are below p and satisfy the curve equation |
| `CurveP224.ValidScalar` | Sunrise/src/middleware/crypto/ecc_p224_curve.cpp:393-395 | true exactly for 1 to n - 1 |
| `CurveP224.LadderStep` | Sunrise/src/middleware/crypto/ecc_p224_curve.cpp:408-415 | one bit doubles the accumulator and keeps the sum with the base exactly when the bit is set |
| `CurveP224.RunLadder` | Sunrise/src/middleware/crypto/ecc_p224_curve.cpp:405-417 | the two loops run the ladder over all bits of the scalar |
| `CurveP224.Multiply` | Sunrise/src/middleware/crypto/ecc_p224_curve.cpp:398-423 | for every 224-bit scalar and curve point: false exactly when the product is infinite, else its affine coordinates, which lie on the curve |
| `KeyCodec.IntegerMinimal` | Sunrise/src/middleware/crypto/ecc_p224.cpp:33-51 | every INTEGER content is nonempty, non-negative, minimal as section 8.3 of ITU-T X.690 requires, and denotes the value |
| `KeyCodec.AppendInteger` | Sunrise/src/middleware/crypto/ecc_p224.cpp:38-51 | the trimming loop appends exactly the minimal DER form |
| `KeyCodec.EncodePublicKey` | Sunrise/src/middleware/crypto/ecc_p224.cpp:60-79 | for all 28-byte x and y the encoding fits 100 bytes and is zero padded |
| `KeyCodec.KeyRoundTrip` | Sunrise/src/middleware/crypto/ecc_p224.cpp:60-159 | decoding the padded encoding returns exactly x and y |
| `KeyCodec.DecodeExact` | Sunrise/src/middleware/crypto/ecc_p224.cpp:90-159 | a key is accepted, with these coordinates, exactly when it holds a sequence header, a bit string, the integer 28 and two integers that denote the coordinates in at most 28 bytes but for one leading zero; every other input is refused |
| `KeyCodec.KeyOpens` | Sunrise/src/middleware/crypto/ecc_p224.cpp:60-79 | the nine bytes every exported key opens with, its length, the integer contents after them and the zero padding, as numerals |
| `AgreementP224.Load` | Sunrise/src/middleware/crypto/ecc_p224_curve.cpp:426-439 | a 28-byte string loads as the big-endian value it denotes, any other width as zero |
| `AgreementP224.Store` | Sunrise/src/middleware/crypto/ecc_p224_curve.cpp:442-453 | the stored 28 bytes denote the value |
| `AgreementP224.GeneratorOnCurve` | Sunrise/src/middleware/crypto/ecc_p224_curve.cpp:36-40 | the generator words denote the secp224r1 generator, which satisfies the curve equation |
| `AgreementP224.Agree` | Sunrise/src/middleware/crypto/ecc_p224.cpp:186-225 | with an already drawn scalar: succeeds exactly when the peer key names a curve point and both products are finite, and returns the exported own point and the x of the shared point |
| `AgreementP224.BothSidesAgree` | Sunrise/src/middleware/crypto/ecc_p224.cpp:185-225 | two peers that completed with each other's exported keys hold the same secret |
| `AgreementP224.ExchangeCompletes` | Sunrise/src/middleware/crypto/ecc_p224.cpp:185-225 | an exported finite key is accepted by the other side |
| `EventFeed.EventRing.Append` | Sunrise/src/server/activity/host_runtime.cpp:147-160 | the ring holds the newest consecutive events and overwritten plus count is the sequence |
| `EventFeed.EventRing.ReadAfter` | Sunrise/src/server/activity/host_runtime.cpp:479-506 | within a generation a read returns exactly the retained events after the cursor, missed counts the rest, and a reset is reported by the generation |
| `EventFeed.ReadsAccount` | Sunrise/src/server/activity/host_runtime.cpp:478-506 | over any chain of reads of a growing history delivered plus missed is the last sequence minus the starting cursor, and deliveries are distinct and increasing |
| `OutputLives.OneTerminalBetween` | Sunrise/src/server/activity/host_runtime.cpp:162-193 | between two successive Auth-state or incident commits of a binding there is exactly one terminal event; it names the first commit's lane and revision and the very state or incident it committed, and no scriptable event comes before it |
| `OutputLives.HeldUntilEnd` | Sunrise/src/server/activity/host_runtime.cpp:162-193 | without a new commit a held slot, its state or incident included, either stays held or is ended by exactly one terminal event that names it, and the scriptable lane does not run before |
| `HostTable.CommitStep` | Sunrise/src/server/activity/host_runtime.cpp:268-278 | committing into a free slot one revision up keeps the table, the event history and its life cycles in agreement |
| `HostTable.TerminalStep` | Sunrise/src/server/activity/host_runtime.cpp:547-576 | ending the held output keeps that agreement |
| `HostTable.ReplaceStep` | Sunrise/src/server/activity/host_runtime.cpp:114-138 | giving replaceable storage to a new generation keeps that agreement |
| `HostTable.SomeInactive` | Sunrise/src/server/activity/host_runtime.cpp:389-395 | pigeonhole: while a retained generation has no instance, some storage is not active |
| `HostLinks.QueuedRowKeeps` | Sunrise/src/server/activity/host_runtime_incidents.cpp:147-170 | queuing an operator incident keeps every held incident retained, unstaged and uncanceled, and rows distinct |
| `HostLinks.PayloadsQueued` | Sunrise/src/server/activity/host_runtime_incidents.cpp:132-174 | queuing an operator incident keeps every held incident equal to the one its unstaged row carries |
| `HostLinks.ClientRowKeeps` | Sunrise/src/server/activity/host_runtime_incidents.cpp:115-128 | a client incident that takes a free or evictable row loses no held incident |
| `HostLinks.QueuePush` | Sunrise/src/server/activity/host_runtime.cpp:60-81 | a row that only follows its binding's queued controls as a burst body may join; the counters stay equal to the row counts |
| `HostLinks.OneControlExactly` | Sunrise/src/server/activity/host_runtime_scriptable.cpp:260-276 | a binding has at most one queued control exactly when no burst body follows one of its own |
| `HostLinks.QueuePop` | Sunrise/src/server/activity/host_runtime.cpp:396-427 | taking a row keeps both, whether it is a control, an input or a withdrawn control |
| `HostLinks.QueueDiscard` | Sunrise/src/server/activity/host_runtime_scriptable.cpp:682-695 | withdrawing a queued control leaves its row behind uncounted and keeps both |
| `HostLinks.RowsAll` | Sunrise/src/server/activity/host_runtime.cpp:396-427 | controls, inputs and withdrawn rows are all the rows |
| `HostSteps.RunLives` | Sunrise/src/server/activity/host_runtime.cpp:253-284 | in every run, bursts of the scriptable lane included, successive Auth-state and incident commits of a binding have exactly one terminal event between them, which names the state or incident committed; the scriptable lane does not run before it, and revisions in one lane strictly rise |
| `HostSteps.RunOpen` | Sunrise/src/server/activity/host_runtime.cpp:162-193 | in every run a held Auth state is the one its commit event names, and a held incident the one its commit event names and its retained row carries; outputPending holds exactly when the kind is set and incidentsPending is one exactly for an incident |
| `HostSteps.HeldIncidentFound` | Sunrise/src/server/activity/host_runtime_incidents.cpp:257-275 | a held incident's row exists and is unstaged and not canceled |
| `HostSlice.RunTotals` | Sunrise/src/server/activity/host_runtime.cpp:396-427 | a drained queue is exact row by row: while the same generations stay live, every control and every State change, slot request, Sense update or incident of theirs has its one event, and the losses counted are exactly the inputs of the others |
| `HostSlice.ControlExact` | Sunrise/src/server/activity/host_runtime.cpp:253-284 | a control is answered by one event, a commit exactly when the table it finds accepts it, with the revision one up, the output held unattempted in its own lane and its row recorded; otherwise a refusal, counted once |
| `HostSlice.InputExact` | Sunrise/src/server/activity/host_runtime.cpp:196-250 | an input of a live generation has its one event with its own kind, source and payload, and one feed row exactly when it is granted a durable sequence; an envelope only the row; an input of any other generation only raises the loss counter by one |
| `HostSlice.RowTouches` | Sunrise/src/server/activity/host_runtime.cpp:141-144 | a row touches at most one generation, a live one, and makes it the newest |
| `HostSlice.RunTouches` | Sunrise/src/server/activity/host_runtime.cpp:389-395 | draining the queue keeps every live generation newer than every other |
| `HostSlice.CancelsOthers` | Sunrise/src/server/activity/host_runtime.cpp:370-388 | the cancellations of a slice name no retained generation |
| `HostSlice.ActivatedNext` | Sunrise/src/server/activity/host_runtime.cpp:389-395 | activating one more retained generation leaves the instances of the others as they are |
| `HostSlice.SparesNext` | Sunrise/src/server/activity/host_runtime.cpp:119-129 | while a slice hands out storage nothing is evicted while some is free, and what is evicted was touched no later than any unretained generation that stays |
| `HostSteps.TurnedAwayExactly` | Sunrise/src/server/activity/host_runtime.cpp:336-361 | a live generation's request is turned away exactly when a control of it is queued, its slot is reserved, or the reducer would refuse an Auth transition for the slot |
| `HostSteps.ServicedAll` | Sunrise/src/server/activity/host_runtime.cpp:363-395 | after the active set is recomputed each retained binding is owned by exactly one instance, which is active |
| `Incidents.IncidentHistory.Reserve` | Sunrise/src/server/activity/host_runtime_incidents.cpp:32-48 | takes the first free row, else the oldest evictable one; fails exactly when all 32 rows are unstaged operator incidents |
| `Incidents.IncidentHistory.Find` | Sunrise/src/server/activity/host_runtime_incidents.cpp:55-64 | finds a row of the revision, or none exists |
| `Incidents.FoundIsRetained` | Sunrise/src/server/activity/host_runtime_incidents.cpp:55-64 | the row found for a retained unstaged revision is that unstaged row |
| `HostRuntime.Host.AppendInput` | Sunrise/src/server/activity/host_runtime.cpp:147-160 | an accepted input gets the next event sequence, and the next durable sequence with a feed row exactly when it is granted one |
| `HostRuntime.Host.ApplyClientInput` | Sunrise/src/server/activity/host_runtime.cpp:196-250 | a live generation's input is recorded once in both histories, a dead one's is counted dropped and changes nothing else |
| `HostRuntime.Host.ApplyClientMessage` | Sunrise/src/server/activity/host_runtime_client_messages.cpp:74-98 | a client envelope enters only the accepted-input feed, or is counted dropped |
| `HostRuntime.Host.ApplyIncident` | Sunrise/src/server/activity/host_runtime_incidents.cpp:78-129 | a client incident is recorded and takes the first free or else the oldest evictable row, or is counted dropped when every row is unstaged operator work |
| `HostRuntime.Host.ApplyControl` | Sunrise/src/server/activity/host_runtime.cpp:253-284 | commits one revision up exactly when the generation is live, its slot free and its counter unspent, and then holds the very state its event names; otherwise refuses, counts and reports |
| `HostRuntime.Host.ApplyIncidentControl` | Sunrise/src/server/activity/host_runtime_incidents.cpp:132-174 | commits exactly when the generation is live, its slot free, its counter unspent and a row available; a refusal takes no row |
| `HostRuntime.Host.CancelOutput` | Sunrise/src/server/activity/host_runtime.cpp:163-193 | ends exactly the held output with one cancellation naming its lane and revision; an incident's row is marked canceled |
| `HostRuntime.Host.EnsureInstance` | Sunrise/src/server/activity/host_runtime.cpp:114-138 | an existing instance is returned untouched, else the first free storage or, when none is free, the least recently touched inactive one without output or reservation is given a cleared instance |
| `HostRuntime.Host.Service` | Sunrise/src/server/activity/host_runtime.cpp:364-431 | one cancellation for every output an unretained generation held and no other; each retained binding gets exactly one active instance, its old one or a fresh one, touched later than every other; then every queued row is reduced once, in order and exactly, every State change, slot request, Sense update and incident of a retained binding having its event and the loss counter growing by exactly the inputs of the others |
| `HostRuntime.Host.Submit` | Sunrise/src/server/activity/host_runtime.cpp:291-333 | queues one client input, or counts its loss when the queue cannot grow |
| `HostRuntime.Host.RequestAuthState` | Sunrise/src/server/activity/host_runtime.cpp:336-361 | accepts exactly an allowed state of a matching binding with no queued control of any lane, held output or reservation |
| `HostRuntime.Host.RequestIncident` | Sunrise/src/server/activity/host_runtime_incidents.cpp:226-254 | the same rule for an operator incident |
| `HostRuntime.Host.NoteAuthAttempt` | Sunrise/src/server/activity/host_runtime.cpp:523-544 | a refused attempt of the exact committed state is counted, leaves that state held and changes nothing else |
| `HostRuntime.Host.NoteAuthTransportStaged` | Sunrise/src/server/activity/host_runtime.cpp:547-578 | exactly the committed revision and state is staged, which frees the slot with one event and makes it the transport revision |
| `HostRuntime.Host.PendingIncident` | Sunrise/src/server/activity/host_runtime_incidents.cpp:257-275 | reports an incident exactly when the generation holds one, and returns its revision and its retained payload |
| `HostRuntime.Host.CancelPendingIncident` | Sunrise/src/server/activity/host_runtime_incidents.cpp:278-288 | cancels exactly a held incident |
| `HostRuntime.Host.NoteIncidentAttempt` | Sunrise/src/server/activity/host_runtime_incidents.cpp:291-315 | a failed attempt keeps the incident held and its row retained |
| `HostRuntime.Host.NoteIncidentTransportStaged` | Sunrise/src/server/activity/host_runtime_incidents.cpp:318-353 | exactly the held revision is staged, with its row and one event |
| `HostRuntime.Host.SetReservation` | Sunrise/src/server/activity/host_runtime_scriptable.cpp:599-645 | a reservation needs a live generation without queued control, held output or reservation |
| `HostRuntime.Host.RequestScriptable` | Sunrise/src/server/activity/host_runtime_scriptable.cpp:249-297 | a burst body of a known generation is queued whatever is queued before it; any other request needs the held reservation, or a generation without queued control, output or reservation |
| `HostRuntime.Host.WithdrawScriptable` | Sunrise/src/server/activity/host_runtime_scriptable.cpp:648-698 | the first queued request of the revision is withdrawn with its count, or the one true standing of the revision is reported and nothing changes |
| `HostRuntime.Host.ApplyScriptable` | Sunrise/src/server/activity/host_runtime_scriptable.cpp:324-594 | a head body is committed one revision up only into a free slot of a live generation, a burst body only at the revision the lane already holds; otherwise it is refused and counted |
| `HostRuntime.Host.EndScriptable` | Sunrise/src/server/activity/host_runtime_scriptable.cpp:300-321 | the held burst ends with one event for every body that ends with it, then the head's, and the slot is given back |
| `HostRuntime.Host.NoteScriptableStaged` | Sunrise/src/server/activity/host_runtime_scriptable_staging.cpp:225-288 | exactly a held scriptable body is staged, with the bodies that ride with it |
| `HostRuntime.Host.CancelScriptable` | Sunrise/src/server/activity/host_runtime_scriptable_staging.cpp:59-75 | exactly the held revision is canceled, with the bodies that ride with it |
| `HostRuntime.Host.NoteScriptableAttempt` | Sunrise/src/server/activity/host_runtime_scriptable_staging.cpp:78-107 | a failed attempt marks the held body; every failure but a missing epoch cancels it |
| `HostRuntime.Host.ReadMissionInputs` | Sunrise/src/server/activity/host_runtime_mission_inputs.cpp:183-214 | drops settled rows, then returns the first page past the cursor with the next cursor, the count of positions past the cursor that lie before every retained row, and a gap when there is one; every invariant is kept, and a torn generation without rows is whole again |
| `HostRuntime.Host.StepMission` | Sunrise/src/state/activity/mission/activity_mission_state.cpp:462-694 | a commit, a fault, a retirement or any recovery of durable cursors between Host steps keeps every invariant; a recovery tears its generation exactly when its rows were not drained |
| `HostRuntime.Host.OpenMission` | Sunrise/src/state/activity/mission/activity_mission_state.cpp:434-445 | a generation that mission State comes to know keeps every invariant |
| `HostRuntime.Host.CloseMission` | Sunrise/src/state/activity/mission/activity_mission_state.cpp:434-445 | so does one it no longer knows |
| `HostRuntime.Host.Reset` | Sunrise/src/server/activity/host_runtime.cpp:581-607 | clears everything, opens the next generation, and starts the owed range at what was already issued |
| `MissionInputs.OwedRetained` | Sunrise/src/server/activity/host_runtime_mission_inputs.cpp:84-94 | every owed durable sequence issued since the reset or the last recovery has a retained row, in every run |
| `MissionInputs.OwedExactlyOnce` | Sunrise/src/server/activity/host_runtime_mission_inputs.cpp:84-94 | for a generation that was not recovered over undrained rows it has exactly one |
| `MissionInputs.AcceptKeeps` | Sunrise/src/server/activity/host_runtime_mission_inputs.cpp:119-164 | issuing a sequence and appending its row keeps that |
| `MissionInputs.RetireKeeps` | Sunrise/src/server/activity/host_runtime_mission_inputs.cpp:97-101 | retiring settled rows drops no owed row |
| `MissionInputs.SettledExactly` | Sunrise/src/server/activity/host_runtime_mission_inputs.cpp:84-101 | the rows that stay are exactly those past the committed and up to the issued cursor of a generation that is known and not faulted |
| `MissionInputs.DurableKeeps` | Sunrise/src/state/activity/mission/activity_mission_state.cpp:462-694 | durable steps keep the feed; recovery owes everything past the committed cursor anew |
| `MissionInputs.UndrainedDuplicates` | Sunrise/src/state/activity/mission/activity_mission_state.cpp:675-686 | for every feed and every row past the committed cursor of a faulted generation: after recovery, once that many inputs are accepted unread, two rows of its sequence are owed |
| `MissionInputs.RecoverExact` | Sunrise/src/state/activity/mission/activity_mission_state.cpp:655-694 | recovery keeps exactly one row for every owed sequence, whatever inputs are accepted after it, if and only if no row of the generation lies past its committed cursor |
| `MissionInputs.ReadThenRecover` | Sunrise/src/server/activity/host_runtime_mission_inputs.cpp:80-101 | after a read while the generation is faulted that condition holds exactly as long as no input of it is accepted |
| `MissionInputs.RecoverThenRead` | Sunrise/src/server/activity/host_runtime_mission_inputs.cpp:84-101 | a read right after recovery, before an input is accepted, leaves no row of the generation |
| `MissionInputs.PageSplits` | Sunrise/src/server/activity/host_runtime_mission_inputs.cpp:190-207 | one page and the rows past its cursor are all the rows past the first cursor |
| `MissionInputs.PagesDeliver` | Sunrise/src/server/activity/host_runtime_mission_inputs.cpp:190-207 | enough page reads of an unchanged feed deliver every row past the cursor once, in order |
| `MissionInputs.ChainDelivers` | Sunrise/src/server/activity/host_runtime_mission_inputs.cpp:183-214 | however the feed grows and retires between reads, deliveries increase, and a row retained throughout is delivered exactly when the cursor passed it |
| `MissionInputs.ChainAccounts` | Sunrise/src/server/activity/host_runtime_mission_inputs.cpp:183-214 | however the feed grows and retires between reads, a chain of reads counts as missed exactly the positions one of them passed while they lay before every retained row, each once, and none that was delivered |
| `MissionInputs.SkipPassed` | Sunrise/src/server/activity/host_runtime_mission_inputs.cpp:190-213 | one read passes every position it counts as missed, and they are all it passes before the first retained row |
| `MissionInputs.NothingSkipped` | Sunrise/src/server/activity/host_runtime_mission_inputs.cpp:190-213 | a read right behind a retained row, or from the feed's end on, counts nothing as missed |
| `MissionInputs.MissionFeed.ReadAfter` | Sunrise/src/server/activity/host_runtime_mission_inputs.cpp:183-214 | one page past the cursor, the next cursor, and as missed exactly the positions past the cursor that lie before every retained row, with a gap when there is one |
| `Seqlock.NeverTorn` | Sunrise/src/client/player/player_position.cpp:40-44 | over all interleavings with one writer between its bumps and no read across 2^32 bumps, a snapshot is one whole published vector, the one current when it loaded the sequence |
| `Seqlock.ReadsAtOnce` | Sunrise/src/client/player/player_position.cpp:94-111 | such a read takes place at one step, where it loads the sequence: it returns what memory holds whole just then, the last vector published, with no writer between its bumps |
| `Seqlock.NothingOnlyAbsent` | Sunrise/src/client/player/player_position.cpp:94-97 | a read returns nothing only when it found no position present |
| `Seqlock.InvStep` | Sunrise/src/client/player/player_position.cpp:94-111 | every micro-step of any thread keeps the invariant behind it |
| `Seqlock.OverlappingWritersTear` | Sunrise/src/client/player/player_position.cpp:33-45 | two overlapping writers make a run whose snapshot returns a vector nobody published |
| `Scan.HitsExact` | Sunrise/src/client/patterns/registry.cpp:204-244 | the naive hit list holds exactly the matching (range, offset) pairs, once each, in scan order |
| `Scan.ResolvedMeans` | Sunrise/src/client/patterns/registry.cpp:230-234 | missing, unique with its address and ambiguous hold exactly for 0, 1 and at least 2 matching pairs |
| `Scan.MatchMeans` | Sunrise/src/client/patterns/registry.cpp:147-160 | a match is a stretch of the range as long as the pattern and equal to it wherever the pattern is exact |
| `Scan.InvalidMeans` | Sunrise/src/client/patterns/registry.cpp:213-217 | a signature is invalid exactly without a name or without an exact byte |
| `Scan.FrequencyCache.ByteCounts` | Sunrise/src/client/patterns/registry.cpp:88-97 | the histogram is recounted exactly when the ranges differ from the cached ones, and then is exact |
| `Scan.AnchorOf` | Sunrise/src/client/patterns/registry.cpp:119-139 | the rarest exact byte, earliest on a tie; none exactly when the pattern cannot be scanned |
| `Scan.MatchesAt` | Sunrise/src/client/patterns/registry.cpp:147-160 | true exactly when the whole pattern lies in the range and every exact byte matches |
| `Scan.NextCandidate` | Sunrise/src/client/patterns/registry.cpp:171-191 | no match starts at an offset it passes over |
| `Scan.ResolveOne` | Sunrise/src/client/patterns/registry.cpp:220-241 | with any exact byte as anchor the verdict is the naive one |
| `Scan.ResolveAll` | Sunrise/src/client/patterns/registry.cpp:204-244 | every verdict is the naive one whatever the cached histogram says; a size mismatch changes no verdict |
| `Scan.CollectMatches` | Sunrise/src/client/patterns/registry.cpp:247-271 | the output is the naive match list cut at the output size |
| `JsonParser.ValueSound` | Sunrise/src/core/settings/json_structure.cpp:12-66 | every slice the checker accepts renders one JSON value of height at most 16 minus the depth |
| `JsonParser.ValueComplete` | Sunrise/src/core/settings/json_structure.cpp:12-66 | every rendering of such a value before end, whitespace or a closing delimiter is accepted with the cursor exactly at its end |
| `JsonParser.ItemsComplete` | Sunrise/src/core/settings/json_structure.cpp:44-61 | the same for array bodies |
| `JsonParser.MembersComplete` | Sunrise/src/core/settings/json_structure.cpp:25-43 | the same for object bodies |
| `JsonParser.StringSound` | Sunrise/src/core/settings/json_scalar.cpp:27-67 | an accepted string is whitespace and a quoted body by section 7 of RFC 8259 |
| `JsonParser.BodyComplete` | Sunrise/src/core/settings/json_scalar.cpp:27-67 | every such body up to its quote is accepted |
| `JsonParser.NumberSound` | Sunrise/src/core/settings/json_number.cpp:141-187 | an accepted number is one by section 6 of RFC 8259 |
| `JsonParser.NumberComplete` | Sunrise/src/core/settings/json_number.cpp:141-187 | every such number before a place a value may end is read whole |
| `JsonParser.AcceptedExactly` | Sunrise/src/core/settings/json_structure.cpp:12-84 | the accepted inputs are exactly the JSON documents of height at most 16 |
| `JsonGrammar.CharacterClasses` | Sunrise/src/core/settings/json_scalar.cpp:6-22 | whitespace, digits, hexadecimal digits and escape codes are the characters sections 2, 6 and 7 of RFC 8259 list |
| `JsonReader.CheckDocument` | Sunrise/src/core/settings/json_structure.cpp:12-84 | the cursor-advancing checker decides that |
| `JsonReader.Parser.SkipValue` | Sunrise/src/core/settings/json_structure.cpp:12-66 | accepts and advances exactly as the recogniser, at every depth |
| `JsonReader.Parser.ReadString` | Sunrise/src/core/settings/json_scalar.cpp:27-67 | returns the encoded bytes between the quotes, well formed, or fails where the recogniser does |
| `JsonReader.Parser.Literal` | Sunrise/src/core/settings/json_scalar.cpp:83-90 | reads the literal exactly when it stands after whitespace |
| `JsonReader.Parser.ReadNumber` | Sunrise/src/core/settings/json_number.cpp:141-187 | reads a number exactly where the recogniser does |
| `JsonReader.Parser.ReadUnsigned` | Sunrise/src/core/settings/json_number.cpp:21-38 | accepts exactly a digit run without leading zero that fits 64 bits, and returns its value |
| `ProtobufWire.VarintRoundTrip` | Sunrise/src/middleware/protobuf/protobuf_wire.cpp:77-130 | a written 64-bit varint is read back with the cursor at its end |
| `ProtobufWire.VarintBound` | Sunrise/src/middleware/protobuf/protobuf_wire.cpp:77-99 | every accepted varint fits 64 bits and ten bytes |
| `ProtobufWire.VarintExact` | Sunrise/src/middleware/protobuf/protobuf_wire.cpp:78-99 | a varint is read exactly from one to ten bytes whose top bits mark all but the last, the tenth at most one, and its value is that of the seven-bit groups, the lowest first |
| `ProtobufWire.VarintDenotes` | Sunrise/src/middleware/protobuf/protobuf_wire.cpp:121-130 | what is written denotes the value in the fewest bytes possible |
| `ProtobufWire.ReadVarint` | Sunrise/src/middleware/protobuf/protobuf_wire.cpp:78-99 | the byte loop computes the recursive reading, the ten-byte and last-byte rules included |
| `ProtobufWire.VarintSize` | Sunrise/src/middleware/protobuf/protobuf_wire.cpp:111-118 | the measured size is the number of bytes written |
| `ProtobufWire.WriteRawVarint` | Sunrise/src/middleware/protobuf/protobuf_wire.cpp:121-130 | writes exactly the varint and touches no other byte |
| `ProtobufWire.KeyRoundTrip` | Sunrise/src/middleware/protobuf/protobuf_wire.cpp:38-75 | keys encode exactly field numbers 1 to 2^29 - 1 and decode to what was encoded |
| `ProtobufWire.KeyInverse` | Sunrise/src/middleware/protobuf/protobuf_wire.cpp:38-75 | every decoded key is the encoding of its parts |
| `ProtobufWire.ReadFixed` | Sunrise/src/middleware/protobuf/protobuf_wire.cpp:102-108 | the little-endian value of the bytes |
| `Protobuf.Writer.WriteVarint` | Sunrise/src/middleware/protobuf/protobuf_writer.cpp:11-27 | appends the field exactly when its number is valid and it fits; a refusal changes no byte |
| `Protobuf.Writer.WriteBytes` | Sunrise/src/middleware/protobuf/protobuf_writer.cpp:30-53 | the same for a payload, which survives prefix insertion when it overlaps the output |
| `Protobuf.Reader.Next` | Sunrise/src/middleware/protobuf/protobuf_reader.cpp:19-75 | decodes the field that starts at the cursor, or changes nothing |
| `Protobuf.FieldRoundTrip` | Sunrise/src/middleware/protobuf/protobuf_reader.cpp:19-75 | a written field is read back whole, with the cursor at its end |
| `Protobuf.FieldExact` | Sunrise/src/middleware/protobuf/protobuf_reader.cpp:19-75 | a field is read exactly where a varint of 8 * number + code stands before its body: for code 0 a varint, for 1 eight bytes and for 5 four of the little-endian value, for 2 a varint length and that many bytes |
| `Protobuf.FixedRoundTrip` | Sunrise/src/middleware/protobuf/protobuf_reader.cpp:38-66 | eight bytes after code 1 and four after code 5 are read back as the number they denote, low byte first |
| `Protobuf.WriteThenRead` | Sunrise/src/middleware/protobuf/protobuf_reader.cpp:19-75 | the reader over any run of accepted writes yields exactly those fields in order with nothing remaining |
| `Protobuf.MeasureVarintField` | Sunrise/src/middleware/protobuf/protobuf_measure.cpp:9-19 | the measured size is the bytes a writer appends |
| `Protobuf.MeasureBytesField` | Sunrise/src/middleware/protobuf/protobuf_measure.cpp:22-37 | the same for a payload, refusing a total above 64 bits |
| `Protobuf.SignonWriter.VarintField` | Sunrise/src/middleware/signon/internal.h:40-43 | accepts exactly what fits and stores the same bytes |
| `Protobuf.SignonWriter.BytesField` | Sunrise/src/middleware/signon/internal.h:51-60 | the same for a payload outside the output |
| `Protobuf.SignonRun` | Sunrise/src/middleware/signon/internal.h:40-86 | on calls with valid numbers it accepts the same ones as the other writer up to the first refusal, with identical bytes |
| `BitStream.FieldValue` | Sunrise/src/middleware/encoding/bit_reader.cpp:36-55 | the bits of a field denote its value modulo 2^width |
| `BitStream.ValueField` | Sunrise/src/middleware/encoding/bit_reader.cpp:36-55 | bits that were read are the bits written back |
| `BitStream.Writer.Write` | Sunrise/src/middleware/encoding/bit_writer.cpp:29-50 | appends exactly the low bits, most significant first, when the width is at most 64 and fits; otherwise fails for good and changes no byte |
| `BitStream.Writer.Finish` | Sunrise/src/middleware/encoding/bit_writer.cpp:53-63 | the reported prefix holds every accepted bit and only zero padding |
| `BitStream.Reader.Read` | Sunrise/src/middleware/encoding/bit_reader.cpp:36-55 | the value of the next bits, or a sticky failure that leaves the cursor |
| `BitStream.Reader.Skip` | Sunrise/src/middleware/encoding/bit_reader.cpp:58-64 | drops exactly the next bits, with the same failures |
| `BitRaw.WriteRaw` | Sunrise/src/middleware/encoding/bit_raw.cpp:17-24 | appends the bits of the bytes in memory order; a refusal leaves exactly the bytes that fit |
| `BitRaw.ReadRaw` | Sunrise/src/middleware/encoding/bit_raw.cpp:27-36 | the bytes are those whose bits came next; a failure keeps exactly the bytes that were there |
| `BitRaw.RawBitsInjective` | Sunrise/src/middleware/encoding/bit_raw.cpp:17-36 | equal raw bits come from equal bytes, so a raw field read back is the one written |
| `BitRaw.StreamIsRaw` | Sunrise/src/middleware/encoding/bit_reader.cpp:47-50 | the stream of a byte string is the bits of its bytes as numbers, the highest bit of each first |
| `BitRaw.RawIsBigEndian` | Sunrise/src/middleware/encoding/bit_reader.cpp:40-60 | the value of whole bytes is the number they denote, high byte first |
| `BitRaw.Copy` | Sunrise/src/middleware/encoding/bit_raw.cpp:44-54 | appends exactly the source's next bits at any alignment: all n when they are there and fit, else whole chunks, with the chunk the writer refused taken from the source |
| `BitRaw.LowFirstRoundTrip` | Sunrise/src/middleware/encoding/bit_raw.cpp:57-78 | a raw integer written and read back is the value modulo its width |
| `BitRaw.LowFirstInverse` | Sunrise/src/middleware/encoding/bit_raw.cpp:57-78 | a raw integer read and written back is the same bits |
| `BitRaw.LowFirstBytes` | Sunrise/src/middleware/encoding/bit_raw.cpp:57-78 | a raw integer over whole bytes is the number they denote, low byte first |
| `BitRaw.WriteRawU64` | Sunrise/src/middleware/encoding/bit_raw.cpp:71-78 | appends the eight bytes low byte first; a refusal leaves exactly those that fit |
| `BitRaw.ReadRawU64` | Sunrise/src/middleware/encoding/bit_raw.cpp:57-68 | assembles the low-byte-first value of the next 64 bits |
| `BitRaw.MeasureWriteRead` | Sunrise/src/middleware/encoding/bit_writer.cpp:17-63 | an encoder that measures its run first never runs out of room, and reading back gives each value modulo 2^width |

## Left out

- Primality of p and associativity of the curve addition: hypotheses, as said above; the order of the generator plays no part.
- Output revisions and durable cursors are proved never to pass 64 bits; the other counters of the Host (events, feed positions, touches, losses) are unbounded, and their wrap to one is not modelled.
- Allocation: whether the reducer queue or the feed can grow is an input of the steps, and so is whether mission State can publish a sequence it issues.
- `binding_matches`, the outer field checks of client messages and incidents, and the retained-binding snapshot are inputs of the steps; a generation whose storage was given away is assumed never retained again before a reset.
- Submit: the per-kind checks other than a zero source generation are one `admitted` input, because the types they inspect are only carried through.
- SetReservation: the reservation token, its expiry by reset generation and its refusal counter are not modelled, because only the flag reaches the shared slot.
- ApplyScriptable: whether a burst has room, mission State armed the intent and the body encodes are inputs; target guards, bodies, delivered estates and their counters belong to the scriptable units.
- NoteScriptableStaged: which bodies of a burst stage with the head, and whether the presented body is exactly the held one, are inputs; the refusals counted for bodies that fail to stage are not modelled.
- RequestScriptable: the target and binding checks and the exact match of a presented reservation are inputs.
- Host events and instances carry the fields the invariants and the reads depend on; attempt ticks, Sense observations and client-message payload details are folded into one payload value or left out.
- `clear_instance` keeps squad Sense storage; that storage is not part of the instance modelled here, so nothing is claimed about it.
- Diagnostic snapshots, names and log lines of the Host are not modelled.
- Seqlock memory is sequentially consistent; the vector is stored and read as three words in order. Component discovery and ownership tests only decide whether a writer publishes or drops.
- The constant-time form of `select` (a mask) is modelled as a choice, and `SecureZeroMemory` not at all; no claim about timing or erasure is made.
- Agree: takes a drawn private scalar; drawing it from system randomness and its four attempts are not modelled.
- `memchr` is a search loop; overlapping image ranges and concurrent changes of the scanned bytes during one scan are not modelled.
- JSON settings sections, signed integers, floats and hexadecimal ids: thin wrappers over the recognisers proved here and `from_chars`.
- SignonWriter.BytesField: takes a payload outside the writer's own storage; its forward copy gives no promise for an overlapping one.
- Byte counts are unbounded, so a `size_t` multiplication by eight or an addition of two sizes does not wrap, except where the code tests for it.
- Tiger, Murmur3 and lookup3, the fixed-layout encoders, address and signature text, the settings upgrade, the SDK prepare chains, hooks and UI: not modelled.
