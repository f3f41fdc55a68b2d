/** The records the quiz application keeps in its JSON stores: tests,
    submissions (one per student registration) and referral coupons. */
module Records {

  datatype Option<T> = None | Some(value: T)

  datatype Result<T, E> = Ok(value: T) | Err(error: E)

  /** A JSON object key that may be missing, present with `null`, or present
      with a number; `dict.setdefault` distinguishes the first two. */
  datatype Slot = Unset | Null | Amount(amount: real)

  /** A published test; its question file is not part of this model. */
  datatype Test = Test(id: string, title: string, price: real)

  /** One student registration. `refCode` is the referring submission's id
      (or ""), `couponUsed` the coupon code typed at registration (or ""),
      `answers[i]` the normalised answer to question i + 1. */
  datatype Submission = Submission(
    id: string,
    testId: string,
    name: string,
    mobile: string,
    institute: string,
    address: string,
    paid: bool,
    paymentId: string,
    orderId: Option<string>,
    payable: Slot,
    price: Option<real>,
    score: Option<int>,
    answers: seq<string>,
    createdAt: string,
    completedAt: Option<string>,
    refCode: string,
    couponUsed: string)

  /** A referral reward: `owner` referred `referred`, who then paid. */
  datatype Coupon = Coupon(
    code: string,
    owner: string,
    referred: string,
    discountPercent: real,
    used: bool,
    createdAt: string)

  /** The two mutable collections of the store. */
  datatype Db = Db(submissions: seq<Submission>, coupons: seq<Coupon>)
}
