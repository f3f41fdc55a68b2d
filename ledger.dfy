/** The submission and coupon store as values: how each step of the
    registration, payment and referral flow changes the two lists, the
    invariant those steps keep, and the access gate in front of a test. */
module Ledger {
  import opened Records
  import opened Text
  import opened Pricing

  // ---------------------------------------------------------------------
  // Lookups

  /** Index of the first submission with this id. */
  function FindSub(subs: seq<Submission>, id: string): (r: Option<nat>)
    ensures r.Some? ==> r.value < |subs| && subs[r.value].id == id
    ensures r.Some? ==> forall j :: 0 <= j < r.value ==> subs[j].id != id
    ensures r.None? ==> forall j :: 0 <= j < |subs| ==> subs[j].id != id
  {
    if subs == [] then None
    else if subs[0].id == id then Some(0)
    else match FindSub(subs[1..], id)
      case None => None
      case Some(k) => Some(k + 1)
  }

  /** Index of the first submission with this id that belongs to this test. */
  function FindSubFor(subs: seq<Submission>, id: string, testId: string): (r: Option<nat>)
    ensures r.Some? ==> r.value < |subs| && subs[r.value].id == id && subs[r.value].testId == testId
    ensures r.Some? ==> forall j :: 0 <= j < r.value ==> !(subs[j].id == id && subs[j].testId == testId)
    ensures r.None? ==> forall j :: 0 <= j < |subs| ==> !(subs[j].id == id && subs[j].testId == testId)
  {
    if subs == [] then None
    else if subs[0].id == id && subs[0].testId == testId then Some(0)
    else match FindSubFor(subs[1..], id, testId)
      case None => None
      case Some(k) => Some(k + 1)
  }

  /** The first test with this id. */
  function FindTest(tests: seq<Test>, id: string): (r: Option<Test>)
    ensures r.Some? ==> r.value in tests && r.value.id == id
    ensures r.Some? ==> exists k :: 0 <= k < |tests| && tests[k] == r.value && forall j :: 0 <= j < k ==> tests[j].id != id
    ensures r.None? ==> forall t :: t in tests ==> t.id != id
  {
    if tests == [] then None
    else if tests[0].id == id then Some(tests[0])
    else FindTest(tests[1..], id)
  }

  /** Two lists with the same ids position by position resolve every id alike. */
  lemma FindSubSameIds(a: seq<Submission>, b: seq<Submission>, x: string)
    requires |a| == |b|
    requires forall j :: 0 <= j < |a| ==> a[j].id == b[j].id
    ensures FindSub(a, x) == FindSub(b, x)
  {
    var fa, fb := FindSub(a, x), FindSub(b, x);
    if fa.Some? {
      assert b[fa.value].id == x;
    }
    if fb.Some? {
      assert a[fb.value].id == x;
    }
  }

  /** Appending a record does not change how an id that already resolves resolves. */
  lemma FindSubAppend(subs: seq<Submission>, s: Submission, x: string)
    ensures FindSub(subs, x).Some? ==> FindSub(subs + [s], x) == FindSub(subs, x)
    ensures FindSub(subs, x).None? && s.id == x ==> FindSub(subs + [s], x) == Some(|subs|)
    ensures FindSub(subs, x).None? && s.id != x ==> FindSub(subs + [s], x) == None
  {
    var t := subs + [s];
    var f, g := FindSub(subs, x), FindSub(t, x);
    if f.Some? {
      assert t[f.value].id == x;
    }
    if g.Some? && g.value < |subs| {
      assert subs[g.value].id == t[g.value].id;
    }
    if s.id == x {
      assert t[|subs|].id == x;
    }
  }

  // ---------------------------------------------------------------------
  // Registration

  /** The registration form as posted; a missing field reads as "". */
  datatype StudentFields = StudentFields(
    name: string, mobile: string, institute: string, address: string, coupon: string)

  datatype RegisterError = MissingRequired

  /** The record a registration creates: every field stripped, unpaid, no
      payment, no score, no answers; rejected when the stripped name or
      mobile is empty. */
  function Admit(f: StudentFields, id: string, testId: string, refCode: string, now: string)
    : (r: Result<Submission, RegisterError>)
    ensures r.Err? <==> Strip(f.name) == "" || Strip(f.mobile) == ""
    ensures r.Ok? ==> r.value.id == id && r.value.testId == testId && r.value.createdAt == now
    ensures r.Ok? ==> r.value.name == Strip(f.name) && r.value.mobile == Strip(f.mobile)
    ensures r.Ok? ==> r.value.institute == Strip(f.institute) && r.value.address == Strip(f.address)
    ensures r.Ok? ==> r.value.name != "" && r.value.mobile != ""
    ensures r.Ok? ==> !r.value.paid && r.value.paymentId == "" && r.value.orderId == None
    ensures r.Ok? ==> r.value.payable.Unset? && r.value.price == None
    ensures r.Ok? ==> r.value.score == None && r.value.answers == [] && r.value.completedAt == None
    ensures r.Ok? ==> r.value.refCode == refCode && r.value.couponUsed == Strip(f.coupon)
  {
    var name, mobile := Strip(f.name), Strip(f.mobile);
    if name == "" || mobile == "" then Err(MissingRequired)
    else Ok(Submission(
      id, testId, name, mobile, Strip(f.institute), Strip(f.address),
      false, "", None, Unset, None, None, [], now, None, refCode, Strip(f.coupon)))
  }

  // ---------------------------------------------------------------------
  // Updates of one submission record

  /** The four ways the application rewrites a stored submission. */
  datatype Edit =
    | Settle(paymentId: string)                          // payment skipped
    | Confirm(paymentId: string, orderId: string)        // gateway callback verified
    | Order(orderId: string, payable: real, price: real) // gateway order created
    | Record(answers: seq<string>, score: int, at: string) // answers marked

  /** The fields that name a submission and tie it to others. */
  predicate SameIdentity(a: Submission, b: Submission)
  {
    a.id == b.id && a.testId == b.testId && a.name == b.name && a.mobile == b.mobile
    && a.refCode == b.refCode && a.couponUsed == b.couponUsed
  }

  /** One edit applied to one record: identity untouched, payment never
      undone, and only the fields the edit names change. Confirming keeps a
      stored amount to pay and sets an absent one to null (`setdefault`). */
  function Apply(e: Edit, s: Submission): (t: Submission)
    ensures SameIdentity(s, t)
    ensures t.paid == (s.paid || e.Settle? || e.Confirm?)
    ensures e.Settle? ==> t == s.(paid := true, paymentId := e.paymentId)
    ensures e.Confirm? ==>
      t == s.(paid := true, paymentId := e.paymentId, orderId := Some(e.orderId),
              payable := if s.payable.Unset? then Null else s.payable)
    ensures e.Order? ==> t == s.(orderId := Some(e.orderId), payable := Amount(e.payable), price := Some(e.price))
    ensures e.Record? ==> t == s.(answers := e.answers, score := Some(e.score), completedAt := Some(e.at))
  {
    match e
    case Settle(pid) => s.(paid := true, paymentId := pid)
    case Confirm(pid, oid) =>
      s.(paid := true, paymentId := pid, orderId := Some(oid),
         payable := if s.payable.Unset? then Null else s.payable)
    case Order(oid, payable, price) => s.(orderId := Some(oid), payable := Amount(payable), price := Some(price))
    case Record(answers, score, at) => s.(answers := answers, score := Some(score), completedAt := Some(at))
  }

  /** Applying an edit a second time changes nothing more. */
  lemma ApplyIdempotent(e: Edit, s: Submission)
    ensures Apply(e, Apply(e, s)) == Apply(e, s)
  {
  }

  /** The edit applied to the first record with this id; every other record,
      including a later one with the same id, is left as it was and no
      identity field changes. */
  function UpdateFirst(subs: seq<Submission>, id: string, e: Edit): (r: seq<Submission>)
    ensures |r| == |subs|
    ensures forall j :: 0 <= j < |subs| && FindSub(subs, id) != Some(j) ==> r[j] == subs[j]
    ensures forall j :: 0 <= j < |subs| && subs[j].id != id ==> r[j] == subs[j]
    ensures forall j :: 0 <= j < |subs| ==> SameIdentity(subs[j], r[j]) && (subs[j].paid ==> r[j].paid)
    ensures FindSub(subs, id).Some? ==> r[FindSub(subs, id).value] == Apply(e, subs[FindSub(subs, id).value])
  {
    match FindSub(subs, id)
    case None => subs
    case Some(k) => subs[k := Apply(e, subs[k])]
  }

  lemma FindSubAfterUpdate(subs: seq<Submission>, id: string, e: Edit, x: string)
    ensures FindSub(UpdateFirst(subs, id, e), x) == FindSub(subs, x)
  {
    FindSubSameIds(subs, UpdateFirst(subs, id, e), x);
  }

  /** Applying the same edit to the same id twice is applying it once. */
  lemma UpdateFirstIdempotent(subs: seq<Submission>, id: string, e: Edit)
    ensures UpdateFirst(UpdateFirst(subs, id, e), id, e) == UpdateFirst(subs, id, e)
  {
    var once := UpdateFirst(subs, id, e);
    FindSubAfterUpdate(subs, id, e, id);
    if FindSub(subs, id).Some? {
      ApplyIdempotent(e, subs[FindSub(subs, id).value]);
    }
  }

  // ---------------------------------------------------------------------
  // Coupons

  /** The coupon with `used` set when its code is the one being redeemed. */
  function Redeem(c: Coupon, code: string): Coupon
  {
    if c.code == code then c.(used := true) else c
  }

  /** Every coupon carrying this code becomes used; nothing else changes. */
  function MarkUsed(coupons: seq<Coupon>, code: string): (r: seq<Coupon>)
    ensures |r| == |coupons|
    ensures forall j :: 0 <= j < |r| ==> r[j] == coupons[j].(used := coupons[j].used || coupons[j].code == code)
  {
    seq(|coupons|, j requires 0 <= j < |coupons| => Redeem(coupons[j], code))
  }

  /** A redeemed code yields no discount any more: a coupon is single-use. */
  lemma RedeemedCodeGivesNoDiscount(coupons: seq<Coupon>, code: string)
    ensures Discount(MarkUsed(coupons, code), code) == 0.0
  {
    var r := MarkUsed(coupons, code);
    assert forall j :: 0 <= j < |r| ==> !Redeemable(r[j], code);
  }

  lemma MarkUsedIdempotent(coupons: seq<Coupon>, code: string)
    ensures MarkUsed(MarkUsed(coupons, code), code) == MarkUsed(coupons, code)
  {
  }

  /** Marking commutes with appending a coupon that carries another code. */
  lemma MarkUsedAppend(coupons: seq<Coupon>, c: Coupon, code: string)
    requires c.code != code
    ensures MarkUsed(coupons + [c], code) == MarkUsed(coupons, code) + [c]
  {
  }

  // ---------------------------------------------------------------------
  // Referral award

  /** A coupon already records this (owner, referred) pair. */
  predicate PairAwarded(coupons: seq<Coupon>, owner: string, referred: string)
  {
    exists j :: 0 <= j < |coupons| && coupons[j].owner == owner && coupons[j].referred == referred
  }

  /** The referring submission's id when every guard of the award passes:
      the new submission exists, is paid, names a referral code, that code
      is the id of a stored submission, and the two mobiles differ. */
  function Referrer(subs: seq<Submission>, newId: string): (r: Option<string>)
    ensures r.Some? <==>
      && FindSub(subs, newId).Some?
      && var n := subs[FindSub(subs, newId).value];
      && n.paid && n.refCode != ""
      && FindSub(subs, n.refCode).Some?
      && subs[FindSub(subs, n.refCode).value].mobile != n.mobile
    ensures r.Some? ==> r.value == subs[FindSub(subs, newId).value].refCode
  {
    match FindSub(subs, newId)
    case None => None
    case Some(k) =>
      if !subs[k].paid || subs[k].refCode == "" then None
      else match FindSub(subs, subs[k].refCode)
        case None => None
        case Some(j) => if subs[j].mobile == subs[k].mobile then None else Some(subs[k].refCode)
  }

  /** A coupon the referral protocol could have issued: 50% off, owned by a
      stored submission that referred a paid submission with another mobile. */
  ghost predicate Earned(c: Coupon, subs: seq<Submission>)
  {
    && c.discountPercent == 50.0
    && FindSub(subs, c.referred).Some?
    && FindSub(subs, c.owner).Some?
    && var k, j := FindSub(subs, c.referred).value, FindSub(subs, c.owner).value;
    && subs[k].paid
    && subs[k].refCode == c.owner
    && subs[j].mobile != subs[k].mobile
  }

  /** `maybe_award_referrer_coupon`: appends one unused 50% coupon for the
      referrer when the guards pass and the pair has no coupon yet. */
  function Award(subs: seq<Submission>, coupons: seq<Coupon>, newId: string, code: string, now: string)
    : (r: seq<Coupon>)
    ensures coupons <= r && |r| <= |coupons| + 1
    ensures |r| == |coupons| + 1 <==> Referrer(subs, newId).Some? && !PairAwarded(coupons, Referrer(subs, newId).value, newId)
    ensures |r| == |coupons| + 1 ==>
      var c := r[|coupons|];
      && c.code == code && c.referred == newId && c.discountPercent == 50.0 && !c.used
      && c.createdAt == now && !PairAwarded(coupons, c.owner, newId) && Earned(c, subs)
  {
    match Referrer(subs, newId)
    case None => coupons
    case Some(owner) =>
      if PairAwarded(coupons, owner, newId) then coupons
      else coupons + [Coupon(code, owner, newId, 50.0, false, now)]
  }

  /** A submission whose mobile equals its referrer's never earns a coupon. */
  lemma SelfReferralEarnsNothing(subs: seq<Submission>, coupons: seq<Coupon>, newId: string, code: string, now: string)
    requires FindSub(subs, newId).Some?
    requires var n := subs[FindSub(subs, newId).value];
      FindSub(subs, n.refCode).Some? && subs[FindSub(subs, n.refCode).value].mobile == n.mobile
    ensures Award(subs, coupons, newId, code, now) == coupons
  {
  }

  /** Running the award again, with any fresh code, issues nothing more. */
  lemma AwardIdempotent(subs: seq<Submission>, coupons: seq<Coupon>, newId: string,
                        code1: string, now1: string, code2: string, now2: string)
    ensures var once := Award(subs, coupons, newId, code1, now1);
      Award(subs, once, newId, code2, now2) == once
  {
    var once := Award(subs, coupons, newId, code1, now1);
    if |once| == |coupons| + 1 {
      assert once[|coupons|].owner == Referrer(subs, newId).value;
      assert PairAwarded(once, Referrer(subs, newId).value, newId);
    } else if Referrer(subs, newId).Some? {
      assert PairAwarded(coupons, Referrer(subs, newId).value, newId);
      var j :| 0 <= j < |coupons| && coupons[j].owner == Referrer(subs, newId).value && coupons[j].referred == newId;
      assert once[j] == coupons[j];
    }
  }

  /** No two coupons record the same (owner, referred) pair. */
  ghost predicate PairsUnique(coupons: seq<Coupon>)
  {
    forall i, j :: 0 <= i < j < |coupons| ==>
      !(coupons[i].owner == coupons[j].owner && coupons[i].referred == coupons[j].referred)
  }

  lemma AwardKeepsPairsUnique(subs: seq<Submission>, coupons: seq<Coupon>, newId: string, code: string, now: string)
    requires PairsUnique(coupons)
    ensures PairsUnique(Award(subs, coupons, newId, code, now))
  {
    var r := Award(subs, coupons, newId, code, now);
    if |r| == |coupons| + 1 {
      var c := r[|coupons|];
      forall i, j | 0 <= i < j < |r|
        ensures !(r[i].owner == r[j].owner && r[i].referred == r[j].referred)
      {
        if j == |coupons| {
          assert r[i] == coupons[i];
        } else {
          assert r[i] == coupons[i] && r[j] == coupons[j];
        }
      }
    }
  }

  // ---------------------------------------------------------------------
  // Store invariant

  ghost predicate IdsUnique(subs: seq<Submission>)
  {
    forall i, j :: 0 <= i < j < |subs| ==> subs[i].id != subs[j].id
  }

  /** Some paid submission was registered with this coupon code. */
  ghost predicate RedeemedBy(code: string, subs: seq<Submission>)
  {
    exists k :: 0 <= k < |subs| && subs[k].paid && subs[k].couponUsed == code
  }

  /** What every reachable store satisfies: unique submission ids, at most
      one coupon per referral pair, every coupon earned by a genuine paid
      referral, and a coupon is used only when a paid registration applied it. */
  ghost predicate Inv(db: Db)
  {
    && IdsUnique(db.submissions)
    && PairsUnique(db.coupons)
    && (forall j :: 0 <= j < |db.coupons| ==> Earned(db.coupons[j], db.submissions))
    && (forall j :: 0 <= j < |db.coupons| && db.coupons[j].used ==> RedeemedBy(db.coupons[j].code, db.submissions))
  }

  /** In such a store every coupon gives a valid percentage, so the amount
      to pay never exceeds the price. */
  lemma InvGivesValidPercentages(db: Db)
    requires Inv(db)
    ensures PercentagesValid(db.coupons)
  {
    forall j | 0 <= j < |db.coupons| ensures 0.0 <= db.coupons[j].discountPercent <= 100.0 {
      assert Earned(db.coupons[j], db.submissions);
    }
  }

  /** Earned survives any change to the records that keeps ids, mobiles,
      referral codes and payment. */
  lemma EarnedStable(c: Coupon, a: seq<Submission>, b: seq<Submission>)
    requires Earned(c, a)
    requires |a| == |b|
    requires forall j :: 0 <= j < |a| ==> SameIdentity(a[j], b[j]) && (a[j].paid ==> b[j].paid)
    ensures Earned(c, b)
  {
    FindSubSameIds(a, b, c.referred);
    FindSubSameIds(a, b, c.owner);
  }

  lemma InvRegister(db: Db, s: Submission)
    requires Inv(db)
    requires FindSub(db.submissions, s.id).None?
    ensures Inv(Db(db.submissions + [s], db.coupons))
  {
    var subs := db.submissions + [s];
    forall j | 0 <= j < |db.coupons| ensures Earned(db.coupons[j], subs) {
      var c := db.coupons[j];
      assert Earned(c, db.submissions);
      FindSubAppend(db.submissions, s, c.referred);
      FindSubAppend(db.submissions, s, c.owner);
    }
    forall j | 0 <= j < |db.coupons| && db.coupons[j].used ensures RedeemedBy(db.coupons[j].code, subs) {
      assert RedeemedBy(db.coupons[j].code, db.submissions);
      var k :| 0 <= k < |db.submissions| && db.submissions[k].paid && db.submissions[k].couponUsed == db.coupons[j].code;
      assert subs[k] == db.submissions[k];
    }
  }

  lemma InvUpdate(db: Db, id: string, e: Edit)
    requires Inv(db)
    ensures Inv(Db(UpdateFirst(db.submissions, id, e), db.coupons))
  {
    var subs := UpdateFirst(db.submissions, id, e);
    forall j | 0 <= j < |db.coupons| ensures Earned(db.coupons[j], subs) {
      EarnedStable(db.coupons[j], db.submissions, subs);
    }
    forall j | 0 <= j < |db.coupons| && db.coupons[j].used ensures RedeemedBy(db.coupons[j].code, subs) {
      assert RedeemedBy(db.coupons[j].code, db.submissions);
      var k :| 0 <= k < |db.submissions| && db.submissions[k].paid && db.submissions[k].couponUsed == db.coupons[j].code;
      assert subs[k].paid && subs[k].couponUsed == db.coupons[j].code;
    }
  }

  lemma InvMarkUsed(db: Db, code: string)
    requires Inv(db)
    requires RedeemedBy(code, db.submissions)
    ensures Inv(Db(db.submissions, MarkUsed(db.coupons, code)))
  {
    var cs := MarkUsed(db.coupons, code);
    forall j | 0 <= j < |cs| ensures Earned(cs[j], db.submissions) {
      assert Earned(db.coupons[j], db.submissions);
    }
    forall i, j | 0 <= i < j < |cs| ensures !(cs[i].owner == cs[j].owner && cs[i].referred == cs[j].referred) {
      assert cs[i].owner == db.coupons[i].owner && cs[j].owner == db.coupons[j].owner;
    }
  }

  lemma InvAward(db: Db, newId: string, code: string, now: string)
    requires Inv(db)
    ensures Inv(Db(db.submissions, Award(db.submissions, db.coupons, newId, code, now)))
  {
    var cs := Award(db.submissions, db.coupons, newId, code, now);
    AwardKeepsPairsUnique(db.submissions, db.coupons, newId, code, now);
    forall j | 0 <= j < |cs| ensures Earned(cs[j], db.submissions) {
      if j < |db.coupons| {
        assert cs[j] == db.coupons[j];
      }
    }
    forall j | 0 <= j < |cs| && cs[j].used ensures RedeemedBy(cs[j].code, db.submissions) {
      assert j < |db.coupons| && cs[j] == db.coupons[j];
    }
  }

  // ---------------------------------------------------------------------
  // The two ways a registration becomes paid

  /** The payment-skipped path: mark the submission paid, mark its coupon
      code used, then run the referral award. */
  function SkipEffect(db: Db, sid: string, demo: bool, couponCode: string, code: string, now: string): (r: Db)
    ensures |r.submissions| == |db.submissions|
    ensures |db.coupons| <= |r.coupons| <= |db.coupons| + 1
    ensures forall j :: 0 <= j < |db.coupons| ==> r.coupons[j].owner == db.coupons[j].owner && r.coupons[j].referred == db.coupons[j].referred
  {
    var subs := UpdateFirst(db.submissions, sid, Settle(if demo then "DEMO" else ""));
    var cs := if couponCode != "" then MarkUsed(db.coupons, couponCode) else db.coupons;
    Db(subs, Award(subs, cs, sid, code, now))
  }

  /** The verified-callback path: mark the submission paid with the
      gateway's ids, mark the code it registered with used, then run the
      referral award. */
  function ConfirmEffect(db: Db, sid: string, paymentId: string, orderId: string, code: string, now: string): (r: Db)
    ensures |r.submissions| == |db.submissions|
    ensures |db.coupons| <= |r.coupons| <= |db.coupons| + 1
    ensures forall j :: 0 <= j < |db.coupons| ==> r.coupons[j].owner == db.coupons[j].owner && r.coupons[j].referred == db.coupons[j].referred
  {
    var subs := UpdateFirst(db.submissions, sid, Confirm(paymentId, orderId));
    var applied := match FindSub(subs, sid) case Some(k) => subs[k].couponUsed case None => "";
    var cs := if applied != "" then MarkUsed(db.coupons, applied) else db.coupons;
    Db(subs, Award(subs, cs, sid, code, now))
  }

  /** What the skipped-payment path does to the store. */
  lemma SkipOutcome(db: Db, sid: string, demo: bool, couponCode: string, code: string, now: string)
    requires FindSub(db.submissions, sid).Some?
    ensures var db' := SkipEffect(db, sid, demo, couponCode, code, now);
      var k := FindSub(db.submissions, sid).value;
      && |db'.submissions| == |db.submissions|
      && db'.submissions[k].paid
      && db'.submissions[k].paymentId == (if demo then "DEMO" else "")
      && (forall j :: 0 <= j < |db.submissions| && db.submissions[j].id != sid ==> db'.submissions[j] == db.submissions[j])
      && |db.coupons| <= |db'.coupons| <= |db.coupons| + 1
      && (forall j :: 0 <= j < |db.coupons| ==>
            db'.coupons[j] == db.coupons[j].(used := db.coupons[j].used || (couponCode != "" && db.coupons[j].code == couponCode)))
  {
  }

  /** What a verified payment callback does to the store. */
  lemma ConfirmOutcome(db: Db, sid: string, paymentId: string, orderId: string, code: string, now: string)
    requires FindSub(db.submissions, sid).Some?
    ensures var db' := ConfirmEffect(db, sid, paymentId, orderId, code, now);
      var k := FindSub(db.submissions, sid).value;
      var applied := db.submissions[k].couponUsed;
      && |db'.submissions| == |db.submissions|
      && db'.submissions[k].paid
      && db'.submissions[k].paymentId == paymentId
      && db'.submissions[k].orderId == Some(orderId)
      && (forall j :: 0 <= j < |db.submissions| && db.submissions[j].id != sid ==> db'.submissions[j] == db.submissions[j])
      && |db.coupons| <= |db'.coupons| <= |db.coupons| + 1
      && (forall j :: 0 <= j < |db.coupons| ==>
            db'.coupons[j] == db.coupons[j].(used := db.coupons[j].used || (applied != "" && db.coupons[j].code == applied)))
  {
    var subs := UpdateFirst(db.submissions, sid, Confirm(paymentId, orderId));
    FindSubAfterUpdate(db.submissions, sid, Confirm(paymentId, orderId), sid);
  }

  /** A callback for an unknown submission id changes nothing but may still
      not award anything: the store is left as it was. */
  lemma ConfirmUnknownIsNoOp(db: Db, sid: string, paymentId: string, orderId: string, code: string, now: string)
    requires FindSub(db.submissions, sid).None?
    ensures ConfirmEffect(db, sid, paymentId, orderId, code, now) == db
  {
  }

  lemma InvSkip(db: Db, sid: string, demo: bool, couponCode: string, code: string, now: string)
    requires Inv(db)
    requires FindSub(db.submissions, sid).Some?
    requires couponCode != "" ==> db.submissions[FindSub(db.submissions, sid).value].couponUsed == couponCode
    ensures Inv(SkipEffect(db, sid, demo, couponCode, code, now))
  {
    var e := Settle(if demo then "DEMO" else "");
    var subs := UpdateFirst(db.submissions, sid, e);
    InvUpdate(db, sid, e);
    var cs := db.coupons;
    if couponCode != "" {
      var k := FindSub(db.submissions, sid).value;
      assert subs[k].paid && subs[k].couponUsed == couponCode;
      assert RedeemedBy(couponCode, subs);
      InvMarkUsed(Db(subs, db.coupons), couponCode);
      cs := MarkUsed(db.coupons, couponCode);
    }
    InvAward(Db(subs, cs), sid, code, now);
  }

  lemma InvConfirm(db: Db, sid: string, paymentId: string, orderId: string, code: string, now: string)
    requires Inv(db)
    ensures Inv(ConfirmEffect(db, sid, paymentId, orderId, code, now))
  {
    var e := Confirm(paymentId, orderId);
    var subs := UpdateFirst(db.submissions, sid, e);
    InvUpdate(db, sid, e);
    FindSubAfterUpdate(db.submissions, sid, e, sid);
    var applied := match FindSub(subs, sid) case Some(k) => subs[k].couponUsed case None => "";
    var cs := db.coupons;
    if applied != "" {
      var k := FindSub(subs, sid).value;
      assert subs[k].paid;
      assert RedeemedBy(applied, subs);
      InvMarkUsed(Db(subs, db.coupons), applied);
      cs := MarkUsed(db.coupons, applied);
    }
    InvAward(Db(subs, cs), sid, code, now);
  }

  /** A repeated verified callback with the same ids leaves the store as the
      first one left it: the submission is not re-marked, no coupon is
      re-redeemed and no second referral coupon is issued, provided the
      first call's fresh coupon code is not a code some registration typed. */
  lemma ConfirmIdempotent(db: Db, sid: string, paymentId: string, orderId: string,
                          code1: string, now1: string, code2: string, now2: string)
    requires forall j :: 0 <= j < |db.submissions| ==> db.submissions[j].couponUsed != code1
    ensures var once := ConfirmEffect(db, sid, paymentId, orderId, code1, now1);
      ConfirmEffect(once, sid, paymentId, orderId, code2, now2) == once
  {
    var e := Confirm(paymentId, orderId);
    var subs1 := UpdateFirst(db.submissions, sid, e);
    UpdateFirstIdempotent(db.submissions, sid, e);
    FindSubAfterUpdate(db.submissions, sid, e, sid);
    var applied := match FindSub(subs1, sid) case Some(k) => subs1[k].couponUsed case None => "";
    var cs := if applied != "" then MarkUsed(db.coupons, applied) else db.coupons;
    var cs1 := Award(subs1, cs, sid, code1, now1);
    assert ConfirmEffect(db, sid, paymentId, orderId, code1, now1) == Db(subs1, cs1);
    var cs2 := if applied != "" then MarkUsed(cs1, applied) else cs1;
    assert cs2 == cs1 by {
      if applied != "" {
        var k := FindSub(subs1, sid).value;
        assert applied == db.submissions[k].couponUsed;
        MarkUsedIdempotent(db.coupons, applied);
        if |cs1| == |cs| + 1 {
          assert cs1 == cs + [cs1[|cs|]];
          MarkUsedAppend(cs, cs1[|cs|], applied);
        }
      }
    }
    AwardIdempotent(subs1, cs, sid, code1, now1, code2, now2);
  }

  /** A verified payment by a submission whose referrer is a stored
      submission with another mobile, and whose pair has no coupon yet,
      issues exactly one coupon for that pair: unused, 50%, owned by the
      referrer. */
  lemma PaidReferralEarnsOneCoupon(db: Db, sid: string, paymentId: string, orderId: string, code: string, now: string)
    requires FindSub(db.submissions, sid).Some?
    requires var n := db.submissions[FindSub(db.submissions, sid).value];
      && n.refCode != ""
      && FindSub(db.submissions, n.refCode).Some?
      && db.submissions[FindSub(db.submissions, n.refCode).value].mobile != n.mobile
      && !PairAwarded(db.coupons, n.refCode, sid)
    ensures var db' := ConfirmEffect(db, sid, paymentId, orderId, code, now);
      var owner := db.submissions[FindSub(db.submissions, sid).value].refCode;
      && |db'.coupons| == |db.coupons| + 1
      && db'.coupons[|db.coupons|] == Coupon(code, owner, sid, 50.0, false, now)
      && forall j :: 0 <= j < |db'.coupons| && db'.coupons[j].owner == owner && db'.coupons[j].referred == sid ==>
           j == |db.coupons|
  {
    var e := Confirm(paymentId, orderId);
    var subs := UpdateFirst(db.submissions, sid, e);
    var k := FindSub(db.submissions, sid).value;
    var owner := db.submissions[k].refCode;
    FindSubAfterUpdate(db.submissions, sid, e, sid);
    FindSubAfterUpdate(db.submissions, sid, e, owner);
    assert Referrer(subs, sid) == Some(owner);
    var applied := subs[k].couponUsed;
    var cs := if applied != "" then MarkUsed(db.coupons, applied) else db.coupons;
    assert !PairAwarded(cs, owner, sid) by {
      forall j | 0 <= j < |cs| ensures !(cs[j].owner == owner && cs[j].referred == sid) {
        assert cs[j].owner == db.coupons[j].owner && cs[j].referred == db.coupons[j].referred;
      }
    }
    var r := Award(subs, cs, sid, code, now);
    assert ConfirmEffect(db, sid, paymentId, orderId, code, now).coupons == r;
    forall j | 0 <= j < |cs| ensures !(r[j].owner == owner && r[j].referred == sid) {
      assert r[j] == cs[j];
    }
  }

  /** The skipped-payment path (demo mode or a free registration) rewards a
      qualifying referral exactly as a verified payment does: one unused
      50% coupon owned by the referrer for the pair. */
  lemma SkippedReferralEarnsOneCoupon(db: Db, sid: string, demo: bool, couponCode: string, code: string, now: string)
    requires FindSub(db.submissions, sid).Some?
    requires var n := db.submissions[FindSub(db.submissions, sid).value];
      && n.refCode != ""
      && FindSub(db.submissions, n.refCode).Some?
      && db.submissions[FindSub(db.submissions, n.refCode).value].mobile != n.mobile
      && !PairAwarded(db.coupons, n.refCode, sid)
    ensures var db' := SkipEffect(db, sid, demo, couponCode, code, now);
      var owner := db.submissions[FindSub(db.submissions, sid).value].refCode;
      && |db'.coupons| == |db.coupons| + 1
      && db'.coupons[|db.coupons|] == Coupon(code, owner, sid, 50.0, false, now)
      && forall j :: 0 <= j < |db'.coupons| && db'.coupons[j].owner == owner && db'.coupons[j].referred == sid ==>
           j == |db.coupons|
  {
    var e := Settle(if demo then "DEMO" else "");
    var subs := UpdateFirst(db.submissions, sid, e);
    var k := FindSub(db.submissions, sid).value;
    var owner := db.submissions[k].refCode;
    FindSubAfterUpdate(db.submissions, sid, e, sid);
    FindSubAfterUpdate(db.submissions, sid, e, owner);
    assert Referrer(subs, sid) == Some(owner);
    var cs := if couponCode != "" then MarkUsed(db.coupons, couponCode) else db.coupons;
    assert !PairAwarded(cs, owner, sid) by {
      forall j | 0 <= j < |cs| ensures !(cs[j].owner == owner && cs[j].referred == sid) {
        assert cs[j].owner == db.coupons[j].owner && cs[j].referred == db.coupons[j].referred;
      }
    }
    var r := Award(subs, cs, sid, code, now);
    assert SkipEffect(db, sid, demo, couponCode, code, now).coupons == r;
    forall j | 0 <= j < |cs| ensures !(r[j].owner == owner && r[j].referred == sid) {
      assert r[j] == cs[j];
    }
  }

  // ---------------------------------------------------------------------
  // Access to a test

  datatype AccessError = TestNotFound | SessionMissing | SubmissionNotFound | PaymentRequired

  /** `take_test`'s checks: the test exists, a submission id was given, it
      names a submission of this test, and outside demo mode that
      submission is paid. */
  function TakeTest(tests: seq<Test>, subs: seq<Submission>, testId: string, sid: string, demo: bool)
    : (r: Result<Submission, AccessError>)
    ensures r.Ok? <==>
      && FindTest(tests, testId).Some? && sid != "" && FindSubFor(subs, sid, testId).Some?
      && (demo || subs[FindSubFor(subs, sid, testId).value].paid)
    ensures r.Ok? ==> r.value in subs && r.value.id == sid && r.value.testId == testId && (demo || r.value.paid)
    ensures r == Err(PaymentRequired) ==> !demo && exists j :: 0 <= j < |subs| && subs[j].id == sid && !subs[j].paid
  {
    if FindTest(tests, testId).None? then Err(TestNotFound)
    else if sid == "" then Err(SessionMissing)
    else match FindSubFor(subs, sid, testId)
      case None => Err(SubmissionNotFound)
      case Some(k) => if !demo && !subs[k].paid then Err(PaymentRequired) else Ok(subs[k])
  }

  /** In a store with unique ids, outside demo mode, an unpaid registration
      is always refused the test. */
  lemma UnpaidIsRefused(tests: seq<Test>, subs: seq<Submission>, testId: string, k: nat)
    requires IdsUnique(subs)
    requires k < |subs| && !subs[k].paid
    ensures TakeTest(tests, subs, testId, subs[k].id, false).Err?
  {
    var f := FindSubFor(subs, subs[k].id, testId);
    if f.Some? {
      assert subs[f.value].id == subs[k].id;
    }
  }
}
