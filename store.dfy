/** The application's request handlers as operations on one in-memory store
    holding the submission list and the coupon list. Identifiers, coupon
    tokens, timestamps and the payment gateway's answers are parameters. */
module Store {
  import opened Records
  import opened Text
  import opened Pricing
  import opened Scoring
  import opened Ledger

  datatype FormError = UnknownTest | IncompleteForm | PaymentInitFailed | PaymentNotConfigured

  /** Where a successful registration sends the student next. */
  datatype Next = TakeTestPage(sid: string) | PaymentPage(sid: string, orderId: string, payable: real)

  datatype PaymentError = MissingPaymentData | SignatureFailed

  datatype SubmitError = NoSubmissionId | SubmissionMissing | TestMissing

  /** Whether a payment callback counts as verified: the gateway's signature
      check decides only when a live client is configured; otherwise
      every callback is accepted. */
  function Verified(demo: bool, clientReady: bool, signatureOk: bool): (v: bool)
    ensures !v <==> !demo && clientReady && !signatureOk
    ensures demo ==> v
  {
    if !demo && clientReady then signatureOk else true
  }

  /** `"CPN-" + token[:8].upper()`, the code of a referral coupon: after
      the prefix come the token's first (up to) eight characters, each
      lower-case letter replaced by its capital. */
  function CouponCode(token: string): (code: string)
    ensures |code| >= 4 && code[..4] == "CPN-"
    ensures |code| == 4 + (if |token| < 8 then |token| else 8)
    ensures forall i :: 4 <= i < |code| ==> !IsLower(code[i])
    ensures forall i :: 4 <= i < |code| ==>
      if IsLower(token[i - 4]) then code[i] as int == token[i - 4] as int - 32 else code[i] == token[i - 4]
  {
    var prefix := if |token| < 8 then token else token[..8];
    UpperSpec(prefix);
    "CPN-" + Upper(prefix)
  }

  class QuizStore {
    var submissions: seq<Submission>
    var coupons: seq<Coupon>

    function State(): Db
      reads this
    {
      Db(submissions, coupons)
    }

    ghost predicate Valid()
      reads this
    {
      Inv(State())
    }

    constructor ()
      ensures Valid()
      ensures submissions == [] && coupons == []
    {
      submissions := [];
      coupons := [];
    }

    /** Validates the registration form and appends the new unpaid record;
        a missing name or mobile leaves the store as it was. */
    method Register(f: StudentFields, id: string, testId: string, refCode: string, now: string)
      returns (r: Result<Submission, RegisterError>)
      requires Valid()
      requires FindSub(submissions, id).None?
      modifies this
      ensures Valid()
      ensures r == Admit(f, id, testId, refCode, now)
      ensures r.Ok? ==> submissions == old(submissions) + [r.value]
      ensures r.Err? ==> submissions == old(submissions)
      ensures coupons == old(coupons)
    {
      r := Admit(f, id, testId, refCode, now);
      if r.Ok? {
        InvRegister(State(), r.value);
        submissions := submissions + [r.value];
      }
    }

    /** Rewrites the first record with this id and stops. */
    method UpdateSubmission(id: string, e: Edit)
      modifies this
      ensures submissions == UpdateFirst(old(submissions), id, e)
      ensures coupons == old(coupons)
    {
      var i := 0;
      while i < |submissions| && submissions[i].id != id
        invariant 0 <= i <= |submissions|
        invariant forall j :: 0 <= j < i ==> submissions[j].id != id
      {
        i := i + 1;
      }
      if i < |submissions| {
        assert FindSub(submissions, id) == Some(i);
        submissions := submissions[i := Apply(e, submissions[i])];
      }
    }

    /** Sets `used` on every coupon carrying this code. */
    method MarkCouponsUsed(code: string)
      modifies this
      ensures coupons == MarkUsed(old(coupons), code)
      ensures submissions == old(submissions)
    {
      var i := 0;
      while i < |coupons|
        invariant 0 <= i <= |coupons| == |old(coupons)|
        invariant forall j :: 0 <= j < i ==> coupons[j] == Redeem(old(coupons)[j], code)
        invariant forall j :: i <= j < |coupons| ==> coupons[j] == old(coupons)[j]
        invariant submissions == old(submissions)
      {
        if coupons[i].code == code {
          coupons := coupons[i := coupons[i].(used := true)];
        }
        i := i + 1;
      }
    }

    /** Checks the referral guards one by one and appends the referrer's
        coupon unless the pair already has one. */
    method AwardReferrerCoupon(newId: string, token: string, now: string)
      modifies this
      ensures coupons == Award(old(submissions), old(coupons), newId, CouponCode(token), now)
      ensures submissions == old(submissions)
    {
      var k := FindSub(submissions, newId);
      if k.None? || !submissions[k.value].paid {
        return;
      }
      var refCode := submissions[k.value].refCode;
      if refCode == "" {
        return;
      }
      var j := FindSub(submissions, refCode);
      if j.None? {
        return;
      }
      if submissions[j.value].mobile == submissions[k.value].mobile {
        return;
      }
      if PairAwarded(coupons, refCode, newId) {
        return;
      }
      coupons := coupons + [Coupon(CouponCode(token), refCode, newId, 50.0, false, now)];
    }

    /** The payment-skipped path of a registration. */
    method SkipPayment(sid: string, demo: bool, couponCode: string, token: string, now: string)
      modifies this
      ensures State() == SkipEffect(old(State()), sid, demo, couponCode, CouponCode(token), now)
    {
      UpdateSubmission(sid, Settle(if demo then "DEMO" else ""));
      if couponCode != "" {
        MarkCouponsUsed(couponCode);
      }
      AwardReferrerCoupon(sid, token, now);
    }

    /** A registration: find the test, register the student, price the
        registration with the typed coupon, then either skip payment (demo
        mode or nothing to pay) or open a gateway order. `order` is the
        gateway's order id, or None when order creation failed. */
    method StudentForm(tests: seq<Test>, testId: string, f: StudentFields, refCode: string,
                       id: string, now: string, demo: bool, clientReady: bool,
                       order: Option<string>, token: string)
      returns (r: Result<Next, FormError>)
      requires Valid()
      requires FindSub(submissions, id).None?
      modifies this
      ensures Valid()
      ensures FindTest(tests, testId).None? ==> r == Err(UnknownTest) && State() == old(State())
      ensures FindTest(tests, testId).Some? && Admit(f, id, testId, refCode, now).Err? ==>
        r == Err(IncompleteForm) && State() == old(State())
      ensures FindTest(tests, testId).Some? && Admit(f, id, testId, refCode, now).Ok? ==>
        var s := Admit(f, id, testId, refCode, now).value;
        var registered := Db(old(submissions) + [s], old(coupons));
        var price := FindTest(tests, testId).value.price;
        var payable := Payable(price, Discount(old(coupons), s.couponUsed));
        if demo || payable <= 0.0 then
          r == Ok(TakeTestPage(id)) && State() == SkipEffect(registered, id, demo, s.couponUsed, CouponCode(token), now)
        else if clientReady && order.Some? then
          r == Ok(PaymentPage(id, order.value, payable))
          && State() == Db(UpdateFirst(registered.submissions, id, Order(order.value, payable, price)), old(coupons))
        else if clientReady then
          r == Err(PaymentInitFailed) && State() == registered
        else
          r == Err(PaymentNotConfigured) && State() == registered
    {
      var test := FindTest(tests, testId);
      if test.None? {
        return Err(UnknownTest);
      }
      var reg := Register(f, id, testId, refCode, now);
      if reg.Err? {
        return Err(IncompleteForm);
      }
      var s := reg.value;
      ghost var registered := State();
      FindSubAppend(old(submissions), s, id);
      var discount := Discount(coupons, s.couponUsed);
      var price := test.value.price;
      var payable := Payable(price, discount);
      if demo || payable <= 0.0 {
        InvSkip(registered, id, demo, s.couponUsed, CouponCode(token), now);
        SkipPayment(id, demo, s.couponUsed, token, now);
        return Ok(TakeTestPage(id));
      }
      if clientReady {
        if order.None? {
          return Err(PaymentInitFailed);
        }
        InvUpdate(registered, id, Order(order.value, payable, price));
        UpdateSubmission(id, Order(order.value, payable, price));
        return Ok(PaymentPage(id, order.value, payable));
      }
      return Err(PaymentNotConfigured);
    }

    /** The gateway's payment callback: reject missing fields and failed
        verification without touching the store; otherwise mark the
        submission paid, redeem the coupon it registered with, and run the
        referral award. */
    method PaymentSuccess(paymentId: string, orderId: string, signature: string, sid: string,
                          demo: bool, clientReady: bool, signatureOk: bool, token: string, now: string)
      returns (r: Result<(), PaymentError>)
      requires Valid()
      modifies this
      ensures Valid()
      ensures paymentId == "" || orderId == "" || signature == "" || sid == "" ==>
        r == Err(MissingPaymentData) && State() == old(State())
      ensures paymentId != "" && orderId != "" && signature != "" && sid != "" && !Verified(demo, clientReady, signatureOk) ==>
        r == Err(SignatureFailed) && State() == old(State())
      ensures paymentId != "" && orderId != "" && signature != "" && sid != "" && Verified(demo, clientReady, signatureOk) ==>
        r == Ok(()) && State() == ConfirmEffect(old(State()), sid, paymentId, orderId, CouponCode(token), now)
    {
      if paymentId == "" || orderId == "" || signature == "" || sid == "" {
        return Err(MissingPaymentData);
      }
      if !Verified(demo, clientReady, signatureOk) {
        return Err(SignatureFailed);
      }
      InvConfirm(State(), sid, paymentId, orderId, CouponCode(token), now);
      UpdateSubmission(sid, Confirm(paymentId, orderId));
      var k := FindSub(submissions, sid);
      var applied := if k.Some? then submissions[k.value].couponUsed else "";
      if applied != "" {
        MarkCouponsUsed(applied);
      }
      AwardReferrerCoupon(sid, token, now);
      return Ok(());
    }

    /** Marks a posted answer sheet: find the submission of this test,
        grade every question of the answer key, and store the answers and
        score on the first record with that id. */
    method SubmitTest(tests: seq<Test>, testId: string, sid: string, answerColumn: seq<string>,
                      form: map<nat, string>, now: string)
      returns (r: Result<int, SubmitError>)
      requires Valid()
      modifies this
      ensures Valid()
      ensures coupons == old(coupons)
      ensures sid == "" ==> r == Err(NoSubmissionId) && submissions == old(submissions)
      ensures sid != "" && FindSubFor(old(submissions), sid, testId).None? ==>
        r == Err(SubmissionMissing) && submissions == old(submissions)
      ensures sid != "" && FindSubFor(old(submissions), sid, testId).Some? && FindTest(tests, testId).None? ==>
        r == Err(TestMissing) && submissions == old(submissions)
      ensures sid != "" && FindSubFor(old(submissions), sid, testId).Some? && FindTest(tests, testId).Some? ==>
        var key := AnswerKey(answerColumn);
        var answers := Graded(form, |key|);
        && r == Ok(Score(key, answers))
        && submissions == UpdateFirst(old(submissions), sid, Record(answers, Score(key, answers), now))
      ensures r.Ok? ==> -|answerColumn| <= r.value <= 4 * |answerColumn|
    {
      if sid == "" {
        return Err(NoSubmissionId);
      }
      if FindSubFor(submissions, sid, testId).None? {
        return Err(SubmissionMissing);
      }
      if FindTest(tests, testId).None? {
        return Err(TestMissing);
      }
      var key := AnswerKey(answerColumn);
      var answers, score := GradeAnswers(key, form);
      InvUpdate(State(), sid, Record(answers, score, now));
      UpdateSubmission(sid, Record(answers, score, now));
      return Ok(score);
    }
  }
}
