# btc-custody: a verified model of threshold signing and of the accounting around a spend

The custody system generates a group key among n participants without a dealer (FROST key
generation), lets any t of them sign a Bitcoin Taproot spend with one BIP-340 signature, and guards
spending with a policy engine and a coin ledger. This project models that behaviour in Dafny and
proves what it promises.

## What is modelled

- **Scalars and points.** Scalars are integers modulo a prime q above 2^32; points are the affine points
  of a curve y^2 = f(x) modulo a prime p. That p and q are prime, and that point addition makes the points
  a cyclic group of order q, is the hypothesis `Curve.Valid`; secp256k1, with f(x) = x^3 + 7, is one such
  curve. Inverses (by Bezout), the injectivity of k -> k * G, parity flips under negation, `lift_x` and the
  round trip through compressed keys are proved from it. Hash functions are uninterpreted total functions
  whose digests are reduced modulo q.
- **Key generation** (`Frost`, `Dkg`, `Ceremony`, `Sharing`): Horner evaluation, Feldman commitments and
  their check, finalisation, the orchestrated ceremony, and what t and t - 1 shares determine.
- **Signing** (`Signing`, `Threshold`, `Verification`, `Psbt`, `Storage`, `InputSigning`): nonces, binding
  factors, Lagrange weights, partial signatures, aggregation, the Taproot tweak, verification, which accepts
  exactly the solutions of the BIP-340 equation, and the PSBT that stores partial signatures and accepts
  only verified ones.
- **Accounting** (`Velocity`, `Engine`, `Schedule`, `UtxoSet`, `Builder`, `Custody`): the sliding-window
  limit, the rule engine, the schedule scan, coin selection, the value arithmetic of a build, and the
  spend that ties everything together.

Loops of the source are methods proved against specification functions; objects that the source updates
in place (`Packet`, `VelocityRule`, `Engine`, `UTXOSet`, `CustodySystem`) are classes. Maps are iterated
in an order nobody chooses. Randomness (coefficients, nonces), the change address and the network's
answer to a broadcast are inputs; the clock is an object that only moves forward.

Several results state exactly when the code meets a property. An honest ceremony succeeds if and only if
no value of the group polynomial at 0, ..., n is zero. Honest signers complete a spend that can be built if
and only if neither the output key nor, for any input's own sighash, the aggregate nonce is the identity.
Every other error of a spend has its own cause (`Custody.CustodySystem.Ends`), whoever the signers are.

Where the code and its comments differ, the model follows the code:

- The scan for the next allowed time visits whole hours of UTC. It is right for every schedule in a zone if
  and only if it sees every hour of the week that the zone ever has, each as soon as it occurs
  (`Schedule.ScanIsRightExactly`); it finds nothing only when signing is never allowed if and only if it
  sees every such hour at all (`Schedule.NothingFoundExactly`). An offset that does not change over the
  scanned week is enough for the second, and a whole number of hours of such an offset is exactly what the
  first needs (`Schedule.ScanIsRightInFixedWeek`). `Schedule.HalfHourZoneIsLate` is a case where it is late,
  and `Schedule.SkippedHourIsNotFound` one where it finds nothing although signing is allowed later.
- The comment at schedule.go:144 says that finding nothing should not happen with a valid configuration.
  Over a week of one offset it happens, with signing disallowed now, if and only if the window is empty or
  no weekday is allowed (`Schedule.NeverAllowedExactly`), and the constructor accepts such windows:
  `Schedule.EqualHoursNeverOpen` is one.
- A velocity rule is meant to keep every window within its limit. With negative amounts it need not
  (`Velocity.NegativeAmountPassesLimit`); recording one entry of any amount does if and only if every
  interval that ends then has room (`Velocity.RecordKeepsLimitExactly`). Without negative amounts, velocity
  rules keep their limits in every engine that lists them if and only if none that has a window is listed
  twice, or some limit allows no positive amount at all (`Engine.RecordingKeepsSafeExactly`);
  `Engine.TwiceListedPassesLimit` is an instance. The safety results say so in their hypotheses, and
  nothing else about a spend depends on them.
- Finalisation does not check that every sender's share has arrived. With shares missing, the secret share
  still belongs to the public verification share if and only if what the missing senders committed to at
  this index sums to zero (`Dkg.FinaliseWithMissing`).

Proofs hide definitions (`hide`) that they do not need, so that each obligation stays small.
`Modular.Mod` is written by repeated subtraction and `Modular.Times` by repeated addition for the same
reason; `Modular.ModIsRemainder` and `Modular.TimesIsProduct` tie them to `%` and `*`.

## Model

| member | source | states |
|---|---|---|
| Modular.InverseCorrect | internal/psbt/signer.go:442-444 | The inverse a Lagrange denominator is multiplied by really is one: a * inverse(a) is 1 modulo a prime q, for every non-zero a. |
| Polynomial.HornerIsPowerSum | internal/frost/frost.go:174-199 | Horner's nesting equals the sum of coefficient times power, for every polynomial and point. |
| Polynomial.SyntheticDivision | internal/psbt/signer.go:416-421 | f(x) = f(r) + (x - r) * g(x) for the synthetic quotient g: the step interpolation rests on. |
| Polynomial.TooManyRoots | docs/frost-mathematics.md:31-42 | A polynomial with as many roots as coefficients is zero. |
| Polynomial.FitExists | docs/frost-mathematics.md:31-42 | Any t values at t different points are taken by a polynomial of t coefficients. |
| Sharing.SharesFixPolynomial | internal/frost/frost.go:142-145 | t shares at different indices fix the polynomial of t coefficients. |
| Sharing.SharesHideSecret | internal/frost/frost.go:142-145 | t - 1 shares at different non-zero indices fit every claimed secret, in exactly one way each. |
| Lagrange.SumPermutation | internal/psbt/signer.go:306-310 | A sum over signers does not depend on their order. |
| Lagrange.PeelSigner | internal/psbt/signer.go:416-449 | A factor (i - s) in every weighted term removes signer s from the weights. |
| Lagrange.WeightsSumToOne | internal/psbt/signer.go:526-539 | The Lagrange coefficients of any different signers sum to one. |
| Lagrange.InterpolateAtZero | internal/psbt/signer.go:416-449 | For any different signers and any polynomial with at most as many coefficients, the weighted sum of its values is its constant term. |
| Curve.GenInjective | internal/frost/frost.go:81-89 | Scalar multiples of the generator are equal exactly when the scalars are congruent. |
| Curve.SameX | internal/frost/frost.go:118-133 | Points with the same x-coordinate are equal or opposite. |
| Curve.ParityFlips | internal/psbt/signer.go:211-216 | Negation flips the parity of y, for every point but the identity. |
| Curve.PublicKeyRoundTrip | internal/frost/frost.go:116-133 | Converting a point to a public key through its compressed form gives the point back, and fails on the identity only. |
| Curve.LiftXOfPoint | internal/psbt/signer.go:512-524 | lift_x of a point's x-coordinate is that point or its negation, whichever has an even y. |
| Frost.Evaluate | internal/frost/frost.go:186-199 | The in-place Horner loop returns the power sum modulo q. |
| Frost.FeldmanCommitments | internal/frost/frost.go:208-214 | Commitment k is coefficient k times the generator, for every k. |
| Frost.EvaluateCommitments | internal/frost/frost.go:246-260 | The incremental-power loop computes the committed polynomial on points. |
| Frost.VerifyShare | internal/frost/frost.go:232-263 | The check accepts exactly when share * G equals the committed polynomial at the recipient. |
| Frost.ShareMatchesCommitted | internal/frost/frost.go:216-230 | Whatever a sender committed to, exactly one share passes the check: the committed polynomial's value. |
| Frost.HonestShareMatches | internal/frost/frost.go:232-263 | For honest commitments the check accepts exactly the sender's own evaluation at the recipient's index. |
| Frost.NewParticipant | internal/frost/frost.go:286-309 | Creation succeeds exactly for 1 <= index <= total and 1 <= threshold <= total, with commitments to the given coefficients. |
| Frost.ShareFor | internal/frost/frost.go:340-342 | A share is the sender's polynomial at the peer's index. |
| Frost.CheckShares | internal/frost/frost.go:391-422 | In any map order, success means exactly that every share has a known sender and passes the check. |
| Frost.SumShares | internal/frost/frost.go:432-436 | The secret share is the sum of the received shares, in any map order. |
| Frost.SumGroupPoint | internal/frost/frost.go:447-452 | The group point is the sum of the constant-term commitments. |
| Frost.SumVerificationPoint | internal/frost/frost.go:469-491 | The verification point of m is the sum of all committed polynomials at m. |
| Frost.Finalise | internal/frost/frost.go:380-507 | Finalisation succeeds exactly when the count, every share, the group key and all n verification shares are acceptable, and returns them. |
| Dkg.AcceptedSharesAreCommitted | internal/frost/frost.go:397-422 | With shares from exactly the distinct senders, dishonest or not, the check accepts only shares that equal their sender's committed polynomial at this index. |
| Dkg.FinaliseSound | internal/frost/frost.go:380-507 | Once the shares are accepted, the secret share is the committed polynomials' sum at this index, the secret share times G is this participant's verification share, and the group key is that sum at zero times G. |
| Dkg.FinaliseWithMissing | internal/frost/frost.go:397-436 | With accepted shares from only some of the distinct senders, the secret share is the sum of their committed values, and it is the one behind this participant's verification share exactly when the missing senders' committed values at this index sum to zero. |
| Dkg.AlteredShareRejected | internal/frost/frost.go:397-422 | Changing any single accepted share makes finalisation fail. |
| Dkg.HonestFinalise | internal/frost/frost.go:380-507 | With honest senders, finalisation succeeds exactly when no value of the group polynomial at 0, ..., n is zero. |
| Dkg.HonestResult | internal/frost/frost.go:344-363 | The result is then F(0) * G, the share F(i), and F(m) * G for every m. |
| Ceremony.DealShares | internal/custody/custody.go:164-176 | After the nested loops every recipient holds exactly the shares of senders 1 to n at their index. |
| Ceremony.FinaliseAll | internal/custody/custody.go:178-196 | All participants finalise, with the same group key, or the first one fails and none is changed; the branch for a different group key is never taken. |
| Custody.CustodySystem.InitializeDKG | internal/custody/custody.go:129-145 | Whatever was there before, all participants 1 to n exist afterwards, each with the random polynomial it was given and no result yet known. |
| Custody.CustodySystem.RunDKGCeremony | internal/custody/custody.go:149-197 | The ceremony succeeds exactly when no value of the group polynomial is zero; then every participant is completed consistently, and the group key is F(0) * G; otherwise participants and group key are as before. |
| Custody.QuorumIsHonest | internal/custody/custody.go:149-197 | After a ceremony any different signers, at least t of them, hold shares that sign for the one group key. |
| Custody.AnyQuorumSigns | internal/custody/custody.go:149-459 | From the ceremony to the signature: whichever quorum signs with the tweaked shares it got, the aggregate of its partial signatures verifies under the output key of the one group key, exactly when neither the aggregate nonce nor that key is the identity. |
| Signing.GenerateNonce | internal/psbt/signer.go:76-105 | Non-zero nonces always give two valid public commitments. |
| Signing.SortCommitments | internal/psbt/signer.go:173-179 | The commitments are sorted by index and none is lost or added. |
| Signing.ComputeBindingFactors | internal/psbt/signer.go:181-187 | Every commitment's index is mapped to the reduced hash of that index, the message and the x-coordinates of every D and E of the sorted list, in order. |
| Signing.AggregateNonce | internal/psbt/signer.go:189-209 | R is the sum of D + rho * E over all commitments. |
| Signing.LagrangeCoefficient | internal/psbt/signer.go:422-449 | The loop computes the product, over the other signers j, of j / (j - i). |
| Signing.CombinePartial | internal/psbt/signer.go:224-242 | The sequence of reduced scalar updates equals one reduction of ±(d + e * rho) + lambda * share * challenge. |
| Signing.Sign | internal/psbt/signer.go:144-248 | Signing succeeds exactly for a signer of the session with a commitment, and returns that scalar. |
| Signing.Aggregate | internal/psbt/signer.go:262-321 | Aggregation fails only without partials; the signature is x(R) and the sum of the partials. |
| Threshold.SortsAgree | internal/psbt/signer.go:173-179 | Whatever order distinct-index commitments arrive in, every signer and the coordinator use the same sorted list. |
| Threshold.AggregateIgnoresOrder | internal/psbt/signer.go:262-321 | The aggregate depends only on which commitments and partials there are. |
| Threshold.EvenSecretIsEven | internal/psbt/signer.go:548-559 | The secret after the parity correction is behind a point with the same x-coordinate and an even y. |
| Threshold.OutputKeySecret | internal/custody/custody.go:552-555 | The Taproot output key is G times the even secret of the group key plus the hash of the group key's x-coordinate: the secret that taproot_tweak_seckey of BIP-341 computes. |
| Threshold.TweakedSharesInterpolate | internal/psbt/signer.go:526-598 | In all four parity combinations the weighted sum of the tweaked shares is the even secret of the group key plus the hash of its x-coordinate, again corrected for an even output key. |
| Threshold.NoncePointIsGen | internal/psbt/signer.go:189-209 | The aggregate nonce of honest commitments is G times the sum of the signers' bound nonces. |
| Threshold.NoncePointHashes | internal/psbt/signer.go:189-209 | In terms of the hash: the aggregate nonce is G times the sum of d + e * H(index, message, all x-coordinates). |
| Threshold.SumOfPartialScalars | internal/psbt/signer.go:224-242 | The partials sum to the secret of the even-y R plus the challenge times the weighted sum of the shares. |
| Verification.VerifiesExactly | internal/psbt/signer.go:512-524 | For every key and 64 bytes: verification accepts exactly when s is reduced and s * G == R + e * P for the even-y points R and P with the given x-coordinates, e being the hash of both and the message. |
| Verification.SignatureIsUnique | internal/psbt/signer.go:503-524 | Under one key, for one message, two accepted signatures with the same R are equal. |
| Verification.SignatureBindsMessage | internal/psbt/signer.go:503-524 | A signature accepted for two messages has congruent challenge hashes for both. |
| Threshold.SignatureVerifies | internal/psbt/signer.go:512-524 | A pair (x(R), s) built from the even secrets of R and Q verifies exactly when neither is the identity. |
| Threshold.ThresholdSignatureVerifies | internal/psbt/signer.go:144-322 | For every polynomial, distinct signer set of sufficient size, message, nonces and orders, the aggregate verifies under the Taproot output key, unless R or Q is the identity. |
| Bytes.WordIsBigEndian | internal/psbt/signer.go:472-473 | Byte k of the 32 stored ones is the digit that counts for 256 to the power 31 - k. |
| Bytes.WordRoundTrip | internal/psbt/signer.go:472-473 | Thirty-two big-endian bytes read back unchanged. |
| Psbt.Packet.SignInput | internal/psbt/signer.go:463-476 | One partial signature of one input changes, nothing else; out-of-range inputs are refused. |
| Psbt.ReadPartials | internal/psbt/signer.go:486-495 | Partials rebuilt in any map order have the same sum. |
| Psbt.Packet.FinalizeInput | internal/psbt/signer.go:479-510 | A signature is set exactly when it verifies in the given session, and every signature ever set was verified in the session that set it. |
| Storage.StorageRoundTrip | internal/psbt/signer.go:463-510 | Storing partials as bytes and reading them back in any order does not change the aggregate scalar. |
| Storage.HonestInputAccepted | internal/psbt/signer.go:479-510 | An input holding one honest partial per signer is accepted, unless R or Q is the identity. |
| Storage.AlteredPartialRejected | internal/psbt/signer.go:479-510 | Changing any single stored partial signature of an accepted input makes it rejected. |
| Psbt.Packet.IsSigned | internal/psbt/psbt.go:353-360 | True exactly when every input has a 64-byte signature. |
| Psbt.Packet.Finalize | internal/psbt/psbt.go:364-377 | Finalising succeeds exactly when all inputs are signed; each witness is that input's signature, outputs unchanged. |
| InputSigning.MakeNonces | internal/custody/custody.go:395-407 | One commitment per list entry; a distinct signer's secret is the one committed to, a repeated signer keeps the last. |
| InputSigning.CollectPartials | internal/custody/custody.go:423-443 | Every signer of the list contributes a partial signature with the tweaked share, or the first one that is not ready, by name, stops the input. |
| InputSigning.SignOneInput | internal/custody/custody.go:413-459 | For any signer list, honest or not, what gets set is the listed signers' aggregate if it verifies, and nothing otherwise; for honest signers it gets set unless R or Q is the identity. |
| InputSigning.SignAllInputs | internal/custody/custody.go:412-462 | Although finalisation errors are ignored, every input is set to the listed signers' aggregate for its own sighash exactly when that verifies under the output key. |
| InputSigning.AggregateIsUnique | internal/psbt/signer.go:173-179 | Signers that are listed once have only one aggregate in a session. |
| InputSigning.HonestAggregateVerifies | internal/custody/custody.go:412-462 | The aggregate of honest signers verifies exactly when neither the aggregate nonce nor the output key is the identity. |
| Velocity.VelocityRule.PruneLedger | internal/policy/velocity.go:83-98 | Pruning keeps exactly the entries of the full history inside the window. |
| Velocity.VelocityRule.Evaluate | internal/policy/velocity.go:45-68 | The pruned ledger allows exactly what the never-pruned history leaves room for. |
| Velocity.VelocityRule.RecordTransaction | internal/policy/velocity.go:72-80 | One entry with the current time is appended, to ledger and history alike. |
| Velocity.VelocityRule.CheckThenRecord | internal/custody/custody.go:360-471 | Checking an amount and recording it once allowed takes ledger and history through exactly one step of the runs whose limit is proved. |
| Velocity.VelocityRule.CurrentSpend | internal/policy/velocity.go:101-112 | The reported spend is the window total of the full history. |
| Velocity.VelocityRule.RemainingAllowance | internal/policy/velocity.go:115-117 | The remaining allowance is the limit less the window total of the full history. |
| Velocity.PruneIsWindow | internal/policy/velocity.go:82-98 | On a time-sorted ledger the prefix cut equals filtering by time. |
| Velocity.RecordKeepsLimitExactly | internal/policy/velocity.go:72-80 | Recording one entry, of any amount, keeps every window within the limit exactly when every interval that ends at its time, up to window length, has room for it. |
| Velocity.RecordKeepsLimit | internal/policy/velocity.go:45-80 | Without negative amounts the check of the whole window is enough: recording the checked amount, with nothing recorded in between, keeps every window of the history within the limit. |
| Velocity.RunStaysWithinLimit | internal/policy/velocity.go:45-98 | Over every run with a forward-moving clock and no negative amount, deciding from the pruned ledger alone, no half-open interval of window length ever exceeds the limit. |
| Velocity.NegativeAmountPassesLimit | internal/policy/velocity.go:45-80 | With negative amounts it can: -1000, then 1000, under a limit of 100. |
| Engine.Engine.Evaluate | internal/policy/engine.go:36-58 | Denies without rules; otherwise the rules are asked in turn, each at its own time, and the request is allowed when every rule passes at its time and denied when some rule is the first not to. |
| Engine.AllowedFits | internal/policy/engine.go:36-58 | An allowed amount fits every velocity limit when the evaluation ends, whenever the rules were asked. |
| Engine.NotDenied | internal/policy/engine.go:36-58 | When limits have room at the start and the other rules pass at any time until the end, the request cannot be denied, however long the rules take. |
| Engine.Engine.RecordTransaction | internal/policy/engine.go:77-84 | Every velocity rule gains one entry of the amount, of either sign, for each time it is listed. |
| Engine.RecordingKeepsSafe | internal/policy/engine.go:36-84 | Recording an allowed request leaves every velocity rule within its limit in all windows, if none is listed twice and no amount is negative. |
| Engine.RecordingKeepsSafeExactly | internal/policy/engine.go:36-84 | For every list of velocity rules: every engine with these, whatever its other rules, keeps all limits in all windows when it records an allowed amount that is not negative, exactly when no rule with a window is listed more than once or some limit allows no positive amount. |
| Engine.TwiceListedPassesLimit | internal/policy/engine.go:77-84 | An instance of the failure: 60 is allowed under a limit of 100 by a rule listed twice, and recorded twice. |
| Schedule.NewScheduleRule | internal/policy/schedule.go:37-77 | Creation fails exactly for a named timezone that cannot be loaded; no days means weekdays, both hours zero means 9 to 18, no timezone means UTC, anything else is taken as given. |
| Schedule.WithinRoundTheClock | internal/policy/schedule.go:110-117 | In normal and in wrapped windows alike, an hour is within exactly when, round the clock from the start hour, it comes before the end hour. |
| Schedule.AllowedInLocalTime | internal/policy/schedule.go:121-124 | An instant is allowed exactly when its local weekday is allowed and its local hour is within the window. |
| Schedule.DefaultIsOfficeHours | internal/policy/schedule.go:37-77 | The default rule allows exactly Monday to Friday from 9:00 until 18:00 in UTC. |
| Schedule.NextAllowedTime | internal/policy/schedule.go:128-146 | In any timezone: nothing is returned exactly when signing is allowed now or at none of the next 168 whole hours of UTC; otherwise the result is the first allowed one of them. |
| Schedule.NothingFoundExactly | internal/policy/schedule.go:126-146 | In any zone: that nothing is found means, for every schedule, that signing is never allowed, exactly when the scan sees every hour of the week the zone ever has. |
| Schedule.ScanIsRightExactly | internal/policy/schedule.go:126-146 | In any zone: the scan is right for every schedule exactly when it sees every hour of the week the zone ever has, and each as soon as it occurs. |
| Schedule.ScanInFixedWeek | internal/policy/schedule.go:126-146 | When the offset does not change over the scanned week, nothing is returned exactly when signing is allowed now or never will be; otherwise the result is the earliest allowed instant plus the offset's part of an hour. |
| Schedule.ScanIsRightInFixedWeek | internal/policy/schedule.go:126-146 | Over such a week the scan is right for every schedule exactly for offsets of whole hours. |
| Schedule.WeekCoversAll | internal/policy/schedule.go:135-145 | If 168 consecutive local hours hold no allowed slot, no instant is ever allowed, in any zone. |
| Schedule.ScanIsExactInWholeHourZones | internal/policy/schedule.go:126-146 | When the offset does not change over the scanned week, the returned instant is the earliest one exactly for offsets of whole hours. |
| Schedule.HalfHourZoneIsLate | internal/policy/schedule.go:134-141 | A zone 5:30 ahead, asked at midnight before a working day: the scan answers 9:30, and 9:00 is the earliest allowed instant. |
| Schedule.NeverAllowedExactly | internal/policy/schedule.go:110-146 | In a zone that keeps one offset for some week, signing is never allowed exactly when no hour of the day is within the window or no weekday is allowed. |
| Schedule.EqualHoursNeverOpen | internal/policy/schedule.go:110-146 | Every day from 9 to 9: nothing is ever allowed and the scan finds nothing. |
| Schedule.SkippedHourIsNotFound | internal/policy/schedule.go:134-146 | In a zone that skips the one allowed hour of the week, the scan finds nothing although signing is allowed the week after. |
| UtxoSet.UTXOSet.Add | internal/wallet/utxo.go:74-86 | A new coin is stored as it is; a known coin only has its confirmations and height updated and keeps everything else, spent or not; no other coin changes; a known unspent coin with a confirmation is spendable, and the balance changes by exactly that coin's contribution. |
| UtxoSet.UTXOSet.Remove | internal/wallet/utxo.go:89-95 | Exactly one coin goes, and the balance drops by what it contributed. |
| UtxoSet.UTXOSet.MarkSpent | internal/wallet/utxo.go:98-109 | A known coin is marked with the spending transaction and is no longer spendable, nothing else changes, and the balance drops by what it contributed. |
| UtxoSet.UTXOSet.Spendable | internal/wallet/utxo.go:136-147 | Exactly the unspent mature coins, each once. |
| UtxoSet.UTXOSet.Balance | internal/wallet/utxo.go:164-175 | The sum of the amounts of the spendable coins, in any map order. |
| UtxoSet.UTXOSet.UnconfirmedBalance | internal/wallet/utxo.go:178-189 | The sum of the amounts of the unspent unconfirmed coins. |
| UtxoSet.BalancesAddUp | internal/wallet/utxo.go:164-189 | Spendable and pending coins are disjoint and together are the unspent ones; both balances add up to the unspent total. |
| UtxoSet.CoversInNumbers | internal/wallet/utxo.go:225-230 | Covering means that the coins exceed the target by the fee rate times inputSize vbytes for each and 50 more. |
| UtxoSet.TopIsLargest | internal/wallet/utxo.go:213-216 | No m coins are worth more than the first m of the descending list. |
| UtxoSet.UTXOSet.SelectCoins | internal/wallet/utxo.go:207-234 | On success the coins are distinct, spendable and cover target and fee, and no smaller non-empty set of spendable coins does; on failure no non-empty set does. |
| UtxoSet.SpentStaysSpent | internal/wallet/utxo.go:74-109 | Over every run without removal a spent coin never becomes spendable again, even when added again. |
| UtxoSet.BalanceOverRun | internal/wallet/utxo.go:74-109 | Over every run the balance moves by exactly the contributions of the coins each step touches. |
| Builder.PreviousOutsAt | internal/psbt/psbt.go:124-142 | For different outpoints the previous outputs that are signed for are exactly each coin's value and script at its own outpoint. |
| Builder.FreshInputKey | internal/psbt/psbt.go:204-219 | The metadata of a Taproot coin holds the 32 key bytes of its script, that of any other coin no key. |
| Builder.Build | internal/psbt/psbt.go:108-245 | A build succeeds exactly when inputs, addresses, funds and sighashes allow it, and otherwise names the first reason why not; inputs equal outputs plus fee; the fee pays for every input and output there is, exceeds the estimate by less than 546 when a change address is given, and equals it when change is emitted. |
| Custody.SpendsEveryCoin | internal/custody/custody.go:366-380 | The inputs of a signed transaction are exactly the wallet's unspent confirmed coins, each at its own outpoint once, and every witness verifies for a sighash over these coins' amounts and scripts. |
| Custody.MarkAllSpent | internal/custody/custody.go:486-489 | Exactly the given coins are marked with the transaction that spent them. |
| Custody.NothingLeft | internal/custody/custody.go:485-489 | Once all spendable coins are marked, the tracked balance is zero. |
| Custody.HonestSigningEnds | internal/custody/custody.go:386-468 | Honest signers complete a transaction exactly when it can be built and neither the output key nor, for any input's own sighash, the aggregate nonce is the identity. |
| Custody.OneEnding | internal/custody/custody.go:386-468 | For signers that are listed once the outcome is determined: its causes exclude each other. |
| Custody.CustodySystem.SignTransaction | internal/custody/custody.go:386-468 | Whoever the signers are, every outcome has its cause: the build is not possible, a signer is not ready, the aggregate of some input does not verify, or all do. Every witness of a returned transaction verifies for its own sighash under the output key, and value is conserved. |
| Custody.CustodySystem.SignWithPolicy | internal/custody/custody.go:337-478 | Nothing gets past the policy engine unless it allowed this request, and a denial has a rule that did not pass (or no rules); the other errors have their causes; the amount is recorded exactly when signing was completed. |
| Custody.CustodySystem.NothingElseFails | internal/custody/custody.go:366-468 | A spend that the policy allows, with coins, a change address, honest signers of the group key, a possible build and no identity, is signed. |
| Custody.CustodySystem.Spend | internal/custody/custody.go:325-492 | On every path: a spend that is not turned away was allowed by the policy, every error has its cause, and a spend that must be allowed and has all it needs is signed; the inputs of a signed transaction are exactly the unspent confirmed coins' outpoints, its witnesses are valid, it pays every recipient and perhaps change, and value is conserved; the amount is recorded exactly when signed, and sound limits hold in all windows; coins are marked only after a broadcast, and the balance is then zero. |

## Left out

- Custody.CustodySystem.Spend: amounts are unbounded integers rather than int64.
- Custody.CustodySystem.InitializeDKG: the total is below 2^32 - 1, because the loops over uint32 do not end at the largest value; a failing random source is not modelled, and participants already there are numbered 1 to the total, as only this method adds any.
- Custody.CustodySystem.RunDKGCeremony: participants are those `InitializeDKG` creates.
- The checks of `New` in custody.go: the constructor requires a threshold between 1 and the total.
- Frost.Finalise: commitments are required to be non-empty, because the code indexes the first one unchecked.
- UtxoSet.UTXOSet.Add: coins are values, so a caller that keeps and changes a coin it has added is not modelled.
- Builder.Build: txid parsing, address decoding and the Taproot sighash are library calls, represented by functions; sighashes are opaque messages, so the library's check that they are 32 bytes long is not modelled.
- The group law itself (concrete field arithmetic, Jacobian coordinates) and SHA-256: addition is a parameter with the group laws as hypothesis, hashes are uninterpreted.
- Randomness quality, nonce freshness and computational security; a spend uses one nonce pair per signer for all its inputs, so no single-use invariant is stated.
- What whitelists, tiers, quorums and the schedule rule decide inside the engine: they appear as arbitrary rules that decide from the request and the time at which they are asked.
- VelocityRule.Reset, UTXOSet.Clear and the remaining getters, address derivation, wallet synchronisation, HSM storage, the command-line programs, serialisation formats, decision texts and mutexes.
