# Paid MCQ tests with referral coupons — a Dafny model

This is a model of the core of a small Flask application. An operator publishes multiple-choice
tests. Students register for a test, pay through a payment gateway (or skip payment in
demo mode or when a coupon makes the test free), take the test, and get a score. A student
who registered through another student's referral link earns that student a 50% coupon.

The model covers the record-keeping behind those requests. The store is two lists:
submissions (one record per registration) and coupons (one record per referral reward).
The model has six modules:

- `Records`: the data: `Test`, `Submission`, `Coupon`, and `Db`, which holds the two lists.
- `Text`: Python's `str.strip()` and `str.upper()` as applied to form fields and answers.
- `Pricing`: the coupon lookup and the `max(0, price * (1 - d/100))` amount to pay.
- `Scoring`: the answer key, the +4 / -1 / 0 marking, and the marking loop.
- `Ledger`: each handler's effect on the store as a function on values. It also defines the
  store invariant `Inv` and proves that every step keeps it. The invariant says:
  - submission ids are unique;
  - at most one coupon exists per (referrer, referred) pair;
  - every coupon was earned by a paid referral from a different mobile;
  - a coupon is marked used only when a paid registration applied its code.
- `Store`: the class `QuizStore`, which holds the two lists as `seq` fields. Its methods
  replay the handlers' loops and are proved to produce exactly the `Ledger` effect while
  keeping `Inv`.

Identifiers (`uuid4`), coupon tokens, timestamps, the demo-mode flag and the gateway's
answers are all parameters. The gateway's answers are: whether a client is configured,
the created order id or a failure, and whether the signature verified. Money is `real`.

## Model

| member | source | states |
|---|---|---|
| `Text.LStripSpec` | main.py:228-232 | left strip removes exactly the longest all-whitespace prefix |
| `Text.RStripSpec` | main.py:228-232 | right strip removes exactly the longest all-whitespace suffix |
| `Text.StripSpec` | main.py:228-233 | a stripped field is the raw field with an all-whitespace prefix and suffix cut off; it is empty iff the raw field was all whitespace; otherwise it starts and ends with a non-space |
| `Text.Strip` | main.py:228-232 | `str.strip()`: never longer than its input; what it removes is stated by `LStripSpec`, `RStripSpec` and `StripSpec` |
| `Text.Upper` | main.py:463-468 | `str.upper()`: one character per input character; what each becomes is stated by `UpperSpec` |
| `Text.Normalize` | main.py:463-468 | strip-then-upper, never longer than its input; `NormalizeIdempotent` and `AnswerMatchIgnoresCaseAndSpace` state what it means for comparisons |
| `Text.UpperSpec` | main.py:468 | upper-casing turns each lower-case ASCII letter into its capital, leaves no lower-case letter, changes nothing else and keeps whitespace class |
| `Text.AnswerMatchIgnoresCaseAndSpace` | main.py:463-472 | an answer that differs from a normalised key entry only in ASCII letter case, padded with any whitespace, normalises to that entry, so it is marked correct |
| `Text.StripIdempotent` | main.py:228-232 | stripping twice equals stripping once |
| `Text.NormalizeIdempotent` | main.py:463-468 | strip-then-upper is idempotent, so a normalised key entry normalises to itself |
| `Pricing.FindUnused` | main.py:259 | returns the first coupon with the code that is not used, or none when no coupon has the code unused |
| `Pricing.Discount` | main.py:256-261 | with a typed code and an unused coupon carrying it, the discount is the first such coupon's percentage; it is 0 with no code or no unused coupon with the code |
| `Pricing.Payable` | main.py:262-263 | `max(0, price * (1 - d/100))`: never negative, never below the discounted price, and equal to it when positive; at most the price for a non-negative price and a discount in 0..100; the full price with no discount; 0 with a discount of 100 or more |
| `Pricing.HalfPriceExample` | main.py:256-263 | a test priced 100 with an unused 50% coupon typed costs 50 |
| `Pricing.PayableWithinPrice` | main.py:256-263 | with valid coupon percentages and a non-negative price, 0 <= payable <= price for any typed code |
| `Scoring.ScoreCounts` | main.py:466-475 | score = 4 x (answered and correct) - (answered and wrong), counted as sets of question indices |
| `Scoring.Points` | main.py:468-475 | one question: 0 exactly for a blank answer, 4 exactly for a non-blank answer equal to the key entry, otherwise -1 |
| `Scoring.Score` | main.py:466-475 | the sheet's total, question by question; for n questions -n <= score <= 4n; its count form is `ScoreCounts` |
| `Scoring.AnswerKey` | main.py:459-463 | one key entry per row of the answer column; each entry is in normal form by `KeyEntriesNormalised` |
| `Scoring.KeyEntriesNormalised` | main.py:463 | normalising a key entry again leaves it unchanged |
| `Scoring.Graded` | main.py:465-469 | one recorded answer per question; what each entry is, by `GradedSpec` |
| `Scoring.GradedSpec` | main.py:468 | each recorded answer is in normal form, and it is blank exactly when the question's field was missing or held only whitespace |
| `Scoring.BlankSheetScoresZero` | main.py:470-471 | an all-blank sheet scores 0 |
| `Scoring.ScoreExample` | main.py:466-475 | answers A, B, blank against key A, C, D score 3 |
| `Scoring.GradeAnswers` | main.py:465-475 | the recorded answers are the graded sheet, one normalised answer per key entry; the score equals the score function, 4 x correct - wrong, and lies in [-n, 4n] |
| `Ledger.FindSub` | main.py:376 | first index whose id matches, or none when no record has the id |
| `Ledger.FindSubFor` | main.py:418 | first index whose id and test id both match, or none |
| `Ledger.FindTest` | main.py:222 | the first test in the list with the id, or none when no test has it |
| `Ledger.Admit` | main.py:228-252 | rejected iff the stripped name or mobile is empty. Otherwise the record stores the stripped name, mobile, institute, address and coupon code and the referral code. It is unpaid, with no payment id, order, amount, price, score or answers |
| `Ledger.Apply` | main.py:351-357 | an edit never changes identity fields and never un-pays. Each edit's result is the old record with only its named fields replaced. Skipping payment sets paid and the payment id (lines 267-271). Confirming also sets the order id and keeps a stored amount to pay, or sets a missing one to null (`setdefault`). An order sets the order id, amount and price (lines 295-299). Marking sets the answers, score and completion time (lines 477-481) |
| `Ledger.UpdateFirst` | main.py:351-357 | only the first record with the id is rewritten with the edit. Every other record is unchanged, including a later one with the same id |
| `Ledger.UpdateFirstIdempotent` | main.py:351-357 | rewriting the same record with the same edit twice equals doing it once |
| `Ledger.MarkUsed` | main.py:274-276 | every coupon with the code becomes used; all other fields and coupons are unchanged |
| `Ledger.RedeemedCodeGivesNoDiscount` | main.py:259-276 | after its code is redeemed, a coupon yields no further discount |
| `Ledger.MarkUsedIdempotent` | main.py:363-365 | redeeming a code twice equals redeeming it once |
| `Ledger.Referrer` | main.py:376-388 | gives a referrer iff the new submission exists, is paid and has a referral code that is the id of a stored submission with another mobile; the referrer is that code |
| `Ledger.Award` | main.py:372-404 | appends at most one coupon and keeps the existing ones. It appends iff the new submission exists, is paid and has a referral code that names a stored submission with another mobile, and that pair has no coupon. The new coupon is the referrer's, unused, 50%, with the given code and time |
| `Ledger.SelfReferralEarnsNothing` | main.py:386-388 | a referrer with the same mobile earns nothing |
| `Ledger.AwardIdempotent` | main.py:390-393 | running the award again, with any fresh code, adds nothing |
| `Ledger.AwardKeepsPairsUnique` | main.py:390-404 | at most one coupon per (owner, referred) pair before implies the same after |
| `Ledger.InvGivesValidPercentages` | main.py:399 | in a store satisfying the invariant every coupon percentage is in 0..100 |
| `Ledger.InvRegister` | main.py:236-253 | appending a registration with a fresh id keeps the store invariant |
| `Ledger.InvUpdate` | main.py:351-357 | rewriting a record keeps the store invariant |
| `Ledger.InvMarkUsed` | main.py:361-366 | redeeming a code that a paid registration applied keeps the store invariant |
| `Ledger.InvAward` | main.py:372-404 | the referral award keeps the store invariant |
| `Ledger.SkipEffect` | main.py:265-280 | the skipped-payment path: submissions keep their count, at most one coupon is added, and existing coupons keep their owner and referred pair; the full effect is stated by `SkipOutcome` and the referral award by `SkippedReferralEarnsOneCoupon` |
| `Ledger.ConfirmEffect` | main.py:349-368 | the verified-callback path: submissions keep their count, at most one coupon is added, and existing coupons keep their owner and referred pair; the full effect is stated by `ConfirmOutcome` |
| `Ledger.SkipOutcome` | main.py:265-280 | skipped payment: the submission is paid with payment id "DEMO" in demo mode and "" otherwise; other submissions are unchanged; exactly the coupons with the applied code become used; at most one coupon is added |
| `Ledger.ConfirmOutcome` | main.py:349-368 | verified callback: only the matching submission is paid with the given payment and order ids; exactly the coupons with its registered code become used; at most one coupon is added |
| `Ledger.ConfirmUnknownIsNoOp` | main.py:350-368 | a callback for an unknown submission id leaves the store unchanged |
| `Ledger.InvSkip` | main.py:265-280 | the skipped-payment path keeps the store invariant |
| `Ledger.InvConfirm` | main.py:349-368 | a verified callback keeps the store invariant |
| `Ledger.ConfirmIdempotent` | main.py:349-368 | a repeated identical callback leaves the store as the first one did: no second redemption and no second coupon |
| `Ledger.PaidReferralEarnsOneCoupon` | main.py:368-404 | a verified payment referred by another mobile, for a pair with no coupon yet, adds exactly one coupon for the pair: unused, 50%, owned by the referrer |
| `Ledger.SkippedReferralEarnsOneCoupon` | main.py:265-280 | a payment skipped in demo mode or for a free registration, referred by another mobile, for a pair with no coupon yet, adds exactly one coupon for the pair: unused, 50%, owned by the referrer |
| `Ledger.TakeTest` | main.py:406-425 | access is granted iff the test exists, a submission id is given and names a submission of this test, and demo mode is on or that submission is paid |
| `Ledger.UnpaidIsRefused` | main.py:423-425 | with unique ids and demo mode off, an unpaid registration is refused the test |
| `Store.Verified` | main.py:331-348 | a callback fails verification exactly when demo mode is off, a client is configured and the signature is bad |
| `Store.CouponCode` | main.py:394 | a referral coupon code is `CPN-` followed by the token's first (up to) eight characters, each lower-case ASCII letter replaced by its capital |
| `Store.QuizStore.constructor` | main.py:70-80 | the store starts empty and satisfies the invariant |
| `Store.QuizStore.Register` | main.py:233-254 | a missing name or mobile leaves the store unchanged; otherwise exactly the admitted record is appended; coupons are unchanged; the invariant holds |
| `Store.QuizStore.UpdateSubmission` | main.py:351-357 | the loop leaves the submission list equal to `UpdateFirst`; coupons are unchanged |
| `Store.QuizStore.MarkCouponsUsed` | main.py:274-276 | the loop leaves the coupon list equal to `MarkUsed`; submissions are unchanged |
| `Store.QuizStore.AwardReferrerCoupon` | main.py:372-404 | the guards leave the coupon list equal to `Award`; submissions are unchanged |
| `Store.QuizStore.SkipPayment` | main.py:265-280 | the store becomes `SkipEffect` of the old store |
| `Store.QuizStore.StudentForm` | main.py:219-316 | gives every outcome of a registration, the store before and after it, and that the invariant holds. An unknown test or an incomplete form changes nothing. Otherwise the record is appended and priced. Demo mode or payable <= 0 skips payment. A created order is recorded with its amount. A failed or unconfigured gateway leaves the unpaid record behind |
| `Store.QuizStore.PaymentSuccess` | main.py:320-370 | missing fields or failed verification: an error and no change; otherwise the store becomes `ConfirmEffect` of the old store; the invariant holds |
| `Store.QuizStore.SubmitTest` | main.py:444-486 | no id, no submission for this test, or no test record: an error and no change. Otherwise the score of the normalised answers is returned, and only the first record with the id receives those answers and that score. Coupons are unchanged, the score lies in [-n, 4n] and the invariant holds |

## Left out

- Flask routing, templates, `flash`, `session`, redirects, JSON responses and the GET form pages: they are user-interface plumbing. Handlers return a result or an error value instead.
- Admin login, logout and the `admin_required` decorator: session handling with no data invariants. Line 104 of `main.py` is also syntactically incomplete.
- Test upload, CSV header validation, quiz-file reading and the CSV export: file I/O. The answer column of the quiz file is a parameter (`answerColumn`), and a test price is a given non-negative `real`.
- JSON load and save: I/O. The store is in memory. The loaded lists and the saved lists are the same values, and the model does not separate them.
- Payment gateway client construction, order creation and signature verification: foreign network calls. They become parameters (`clientReady`, `order`, `signatureOk`).
- `uuid4` and `datetime.utcnow`: they become parameters. Registration requires the new id to be unused, which is what `uuid4` provides in practice. `ConfirmIdempotent` requires the freshly generated coupon code not to equal any typed coupon code.
- Floating-point arithmetic and the paise amount `int(round(payable * 100))` sent to the gateway: money is an exact `real`, and the rounded amount is not modelled.
- Concurrent requests and the unlocked whole-file read-modify-write between them: the model is sequential.
- The response of the payment callback names the test of the loop variable left over after the search. It is not modelled; the callback returns `Ok(())`.
- Line 463 of `main.py` has a typographic quote in the default `""`. The model uses the intended empty-string default.
- `Text.UpperSpec`: `upper()` is modelled on ASCII letters only. Python's full Unicode case mapping, including length-changing cases such as `ß`, is not modelled.
- `Store.QuizStore.SubmitTest`: a missing test record makes the source crash. The model returns `TestMissing` and leaves the store unchanged. A missing quiz file is not modelled.

## Behaviour of the code that the model keeps

These points differ from the intended lifecycle of the application. The model follows the code.

- `submit_test` does not check payment. Only `take_test` is gated (main.py:423), so an unpaid submission can still post answers and be scored.
- Re-submitting answers re-scores and overwrites the stored answers, score and completion time. It does not return the earlier score.
- A coupon is checked for "unused" when the student registers, but marked used only when payment completes. Two registrations that both wait for payment can therefore both get the discount from one coupon. After either one completes, `RedeemedCodeGivesNoDiscount` shows that later registrations get none.
- Marking a coupon used affects every coupon with that code. It is done whenever the payment completes, whether or not the code was valid when the student registered. The invariant `Ledger.Inv` shows that a coupon is still never marked used without a paid registration that applied its code.
- The "Payment not configured" branch (main.py:314-316) cannot be reached with the source's start-up logic, which falls back to demo mode when no client can be built. The model keeps the branch behind the `clientReady` parameter.
