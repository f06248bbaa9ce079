/**
 Decisions of src/controllers/paymentsController.js. Signature checks
 (HMAC-SHA256) are supplied as booleans, the payment gateway's replies as
 parameters, and dates as epoch milliseconds.
 */
module PaymentsController {
  import opened Results
  import opened UserModel
  import opened UserDao
  import opened PaymentConstants

  const MsgVerifyFailed := "Internal server error during payment verification"

  /** The order sent to the gateway: an amount in paise and its currency. */
  datatype Order = Order(amount: int, currency: string)

  /** `createOrder`: only a listed credit pack can be bought, at its listed price. */
  function CreateOrder(credits: int): (r: Result<Order>)
    ensures r.Err? <==> credits !in CreditToPaisa
    ensures r.Err? ==> r.failure == Failure(400, "Invalid credit value")
    // the order's amount is the price that the reverse table maps back to the pack
    ensures r.Ok? ==> r.value.currency == "INR" && r.value.amount > 0
                      && r.value.amount in PaisaToCredit && PaisaToCredit[r.value.amount] == credits
  {
    PriceTablesAreInverse();
    if credits !in CreditToPaisa || CreditToPaisa[credits] == 0 then Err(Failure(400, "Invalid credit value"))
    else Ok(Order(CreditToPaisa[credits], "INR"))
  }

  /** Index of the account with id `id`, if stored. */
  function IndexOfId(users: UserStore, id: Id): (r: Option<nat>)
    ensures r.Some? ==> r.value < |users| && users[r.value].id == id
    ensures r.None? <==> FindById(users, id).None?
  {
    FirstWhere(users, (u: User) => u.id == id)
  }

  /** The collection after the account at `i` is replaced: nothing else moves. */
  predicate OnlyChanged(before: UserStore, after: UserStore, i: nat, u: User)
  {
    i < |before| && |after| == |before| && after[i] == u
    && forall j :: 0 <= j < |before| && j != i ==> after[j] == before[j]
  }

  /**
   `verifyOrder` as written: after a valid signature the requester's credits
   grow by the `credits` value the client sent. `credits` is `None` when
   `Number(credits)` is NaN (absent or not numeric): the balance becomes NaN,
   the save fails its cast, and the handler answers 500.
   */
  function VerifyOrder(users: UserStore, userId: Id, signatureValid: bool, credits: Option<int>): (r: Result<UserStore>)
    ensures !signatureValid ==> r == Err(Failure(400, "Invalid transaction signature"))
    ensures signatureValid && FindById(users, userId).None? ==> r == Err(Failure(404, "User not found"))
    ensures signatureValid && FindById(users, userId).Some? && credits.None?
            ==> r == Err(Failure(500, MsgVerifyFailed))
    ensures r.Ok? <==> signatureValid && FindById(users, userId).Some? && credits.Some?
    ensures r.Ok? ==> var i := IndexOfId(users, userId).value;
                      OnlyChanged(users, r.value, i, users[i].(credits := users[i].credits + credits.value))
  {
    if !signatureValid then Err(Failure(400, "Invalid transaction signature"))
    else
      match IndexOfId(users, userId)
      case None => Err(Failure(404, "User not found"))
      case Some(i) =>
        match credits
        case None => Err(Failure(500, MsgVerifyFailed))
        case Some(c) => Ok(users[i := users[i].(credits := users[i].credits + c)])
  }

  /** The credit balance of the account with id `id` (0 when there is none). */
  function CreditsOf(users: UserStore, id: Id): int
  {
    match IndexOfId(users, id)
    case None => 0
    case Some(i) => users[i].credits
  }

  /**
   Replaying a verified payment is not idempotent: the second request adds
   the credits again.
   */
  lemma VerifyOrderReplayAddsTwice(users: UserStore, userId: Id, credits: int)
    requires IndexOfId(users, userId).Some?
    ensures VerifyOrder(users, userId, true, Some(credits)).Ok?
    ensures var once := VerifyOrder(users, userId, true, Some(credits)).value;
            VerifyOrder(once, userId, true, Some(credits)).Ok?
            && CreditsOf(VerifyOrder(once, userId, true, Some(credits)).value, userId)
               == CreditsOf(users, userId) + 2 * credits
  {
    var i := IndexOfId(users, userId).value;
    var once := VerifyOrder(users, userId, true, Some(credits)).value;
    FirstIdUnchanged(users, once, userId, i);
  }

  /** Rewriting the first account with an id, keeping its id, keeps it first. */
  lemma FirstIdUnchanged(before: UserStore, after: UserStore, id: Id, i: nat)
    requires IndexOfId(before, id) == Some(i)
    requires |after| == |before| && after[i].id == id
    requires forall j :: 0 <= j < |before| && j != i ==> after[j] == before[j]
    ensures IndexOfId(after, id) == Some(i)
  {
    var k := IndexOfId(after, id);
    assert k.Some?;
  }

  /**
   The signed order does not bound the credits granted: paying for the
   cheapest pack (100 paise, worth 10 credits) and sending `credits: 100`
   grants 100 credits.
   */
  lemma VerifyOrderTrustsClientCredits(u: User)
    requires u.credits == 0
    ensures CreateOrder(10) == Ok(Order(100, "INR")) && PaisaToCredit[100] == 10
    ensures CreditsOf(VerifyOrder([u], u.id, true, Some(100)).value, u.id) == 100
  {
    PriceTablesAreInverse();
    var after := VerifyOrder([u], u.id, true, Some(100)).value;
    FirstIdUnchanged([u], after, u.id, 0);
  }

  /**
   Corrected `verifyOrder`: the credits granted are those the reverse price
   table assigns to the amount of the order the signature covers.
   */
  function VerifyPricedOrder(users: UserStore, userId: Id, signatureValid: bool, paidPaise: int): (r: Result<UserStore>)
    ensures !signatureValid ==> r == Err(Failure(400, "Invalid transaction signature"))
    ensures signatureValid && paidPaise !in PaisaToCredit ==> r == Err(Failure(400, "Invalid credit value"))
    ensures r.Ok? ==> paidPaise in PaisaToCredit && IndexOfId(users, userId).Some?
    ensures r.Ok? ==> var i := IndexOfId(users, userId).value;
                      OnlyChanged(users, r.value, i, users[i].(credits := users[i].credits + PaisaToCredit[paidPaise]))
  {
    if !signatureValid then Err(Failure(400, "Invalid transaction signature"))
    else if paidPaise !in PaisaToCredit then Err(Failure(400, "Invalid credit value"))
    else VerifyOrder(users, userId, true, Some(PaisaToCredit[paidPaise]))
  }

  /** Paying for a pack created by `createOrder` grants exactly that pack's credits. */
  lemma PricedOrderGrantsPurchasedPack(users: UserStore, userId: Id, credits: int)
    requires CreateOrder(credits).Ok? && IndexOfId(users, userId).Some?
    ensures var paid := CreateOrder(credits).value.amount;
            VerifyPricedOrder(users, userId, true, paid).Ok?
            && CreditsOf(VerifyPricedOrder(users, userId, true, paid).value, userId) == CreditsOf(users, userId) + credits
  {
    var paid := CreateOrder(credits).value.amount;
    var i := IndexOfId(users, userId).value;
    FirstIdUnchanged(users, VerifyPricedOrder(users, userId, true, paid).value, userId, i);
  }

  /** The subscription the gateway is asked to create. */
  datatype SubscriptionRequest = SubscriptionRequest(planId: string, totalCount: int)

  /** `createSubscription`: a yearly plan bills twice, any other plan 26 times. */
  function CreateSubscription(planType: string): (r: Result<SubscriptionRequest>)
    ensures r.Ok? <==> planType in {"MONTHLY", "YEARLY"}
    ensures r.Err? ==> r.failure == Failure(400, "Invalid plan selected")
    ensures r.Ok? ==> r.value.planId == SubscriptionPlans[planType]
    ensures r.Ok? ==> (r.value.totalCount == 2 <==> planType == "YEARLY")
    ensures r.Ok? ==> r.value.totalCount in {2, 26}
  {
    if planType !in SubscriptionPlans || SubscriptionPlans[planType] == "" then Err(Failure(400, "Invalid plan selected"))
    else
      var totalCount := if planType == "YEARLY" then 2 else 26;
      Ok(SubscriptionRequest(SubscriptionPlans[planType], totalCount))
  }

  /**
   `verifySubscription` with the gateway's subscription details and the
   derived start and end dates as inputs: the account's subscription becomes
   active on the given plan.
   */
  function VerifySubscription(users: UserStore, userId: Id, signatureValid: bool, subscriptionId: string,
                              planId: string, startDate: int, endDate: int): (r: Result<UserStore>)
    ensures !signatureValid ==> r == Err(Failure(400, "Invalid subscription signature"))
    ensures signatureValid && FindById(users, userId).None? ==> r.Err? && r.failure.status == 500
    ensures r.Ok? <==> signatureValid && FindById(users, userId).Some?
    ensures r.Ok? ==> var i := IndexOfId(users, userId).value;
                      OnlyChanged(users, r.value, i,
                        users[i].(subscription := Some(Subscription(subscriptionId, Active, planId, startDate, endDate))))
  {
    if !signatureValid then Err(Failure(400, "Invalid subscription signature"))
    else
      match IndexOfId(users, userId)
      case None => Err(Failure(500, "Internal server error"))
      case Some(i) =>
        Ok(users[i := users[i].(subscription := Some(Subscription(subscriptionId, Active, planId, startDate, endDate)))])
  }

  /** An account holds a subscription with a non-empty id. */
  predicate HasSubscriptionId(u: User)
  {
    u.subscription.Some? && u.subscription.value.id != ""
  }

  /**
   `cancelSubscription` (the gateway's cancellation is not modelled): an
   account without a subscription id is refused, otherwise its subscription
   is marked cancelled.
   */
  function CancelSubscription(users: UserStore, userId: Id): (r: Result<UserStore>)
    ensures FindById(users, userId).None? ==> r.Err? && r.failure.status == 500
    ensures FindById(users, userId).Some? && !HasSubscriptionId(FindById(users, userId).value)
            ==> r == Err(Failure(400, "No active subscription found"))
    ensures r.Ok? <==> FindById(users, userId).Some? && HasSubscriptionId(FindById(users, userId).value)
    ensures r.Ok? ==> var i := IndexOfId(users, userId).value;
                      HasSubscriptionId(users[i])
                      && OnlyChanged(users, r.value, i,
                           users[i].(subscription := Some(users[i].subscription.value.(status := Cancelled))))
  {
    match IndexOfId(users, userId)
    case None => Err(Failure(500, "Error cancelling subscription"))
    case Some(i) =>
      if !HasSubscriptionId(users[i]) then Err(Failure(400, "No active subscription found"))
      else Ok(users[i := users[i].(subscription := Some(users[i].subscription.value.(status := Cancelled)))])
  }

  /** The `payload.subscription.entity` of a webhook event. */
  datatype SubscriptionEntity = SubscriptionEntity(id: string, currentEnd: int)

  /** Index of the first account whose subscription has id `subscriptionId`. */
  function IndexOfSubscription(users: UserStore, subscriptionId: string): (r: Option<nat>)
    ensures r.Some? ==> r.value < |users| && users[r.value].subscription.Some?
                        && users[r.value].subscription.value.id == subscriptionId
    ensures r.None? ==> forall j :: 0 <= j < |users| && users[j].subscription.Some?
                                    ==> users[j].subscription.value.id != subscriptionId
  {
    FirstWhere(users, (u: User) => u.subscription.Some? && u.subscription.value.id == subscriptionId)
  }

  /**
   `webhook`. An event whose payload lacks the subscription entity throws
   inside the handler, which still acknowledges it; `None` models that.
   */
  function Webhook(users: UserStore, signatureValid: bool, event: string, entity: Option<SubscriptionEntity>)
    : (r: Result<UserStore>)
    ensures !signatureValid ==> r == Err(Failure(400, "Invalid signature"))
    ensures signatureValid ==> r.Ok?
    // events other than these three, or no subscribed account, change nothing
    ensures signatureValid && event !in {"subscription.charged", "subscription.cancelled", "subscription.halted"}
            ==> r == Ok(users)
    ensures signatureValid && (entity.None? || IndexOfSubscription(users, entity.value.id).None?) ==> r == Ok(users)
    // a charge renews the account: active until the event's period end (seconds to milliseconds)
    ensures signatureValid && event == "subscription.charged" && entity.Some?
            && IndexOfSubscription(users, entity.value.id).Some? ==>
              var i := IndexOfSubscription(users, entity.value.id).value;
              var s := users[i].subscription.value;
              OnlyChanged(users, r.value, i,
                users[i].(subscription := Some(s.(status := Active, endDate := entity.value.currentEnd * 1000))))
    // a cancellation or a halt marks it cancelled
    ensures signatureValid && event in {"subscription.cancelled", "subscription.halted"} && entity.Some?
            && IndexOfSubscription(users, entity.value.id).Some? ==>
              var i := IndexOfSubscription(users, entity.value.id).value;
              OnlyChanged(users, r.value, i,
                users[i].(subscription := Some(users[i].subscription.value.(status := Cancelled))))
  {
    if !signatureValid then Err(Failure(400, "Invalid signature"))
    else if event == "subscription.charged" then
      if entity.None? then Ok(users)
      else
        match IndexOfSubscription(users, entity.value.id)
        case None => Ok(users)
        case Some(i) =>
          var s := users[i].subscription.value;
          Ok(users[i := users[i].(subscription := Some(s.(status := Active, endDate := entity.value.currentEnd * 1000)))])
    else if event == "subscription.cancelled" || event == "subscription.halted" then
      if entity.None? then Ok(users)
      else
        match IndexOfSubscription(users, entity.value.id)
        case None => Ok(users)
        case Some(i) =>
          Ok(users[i := users[i].(subscription := Some(users[i].subscription.value.(status := Cancelled)))])
    else Ok(users)
  }

  /**
   The subscription state machine the handlers drive: verification and a
   charge lead to active, cancellation, a cancel event or a halt to cancelled,
   and a later charge reactivates a cancelled subscription.
   */
  lemma CancelledSubscriptionIsRenewedByCharge(users: UserStore, userId: Id, subscriptionId: string, currentEnd: int)
    requires IndexOfId(users, userId).Some?
    requires var u := users[IndexOfId(users, userId).value];
             HasSubscriptionId(u) && u.subscription.value.id == subscriptionId
    // no other account holds this subscription
    requires forall j :: 0 <= j < |users| && j != IndexOfId(users, userId).value && users[j].subscription.Some?
                         ==> users[j].subscription.value.id != subscriptionId
    ensures CancelSubscription(users, userId).Ok?
    ensures var cancelled := CancelSubscription(users, userId).value;
            var renewed := Webhook(cancelled, true, "subscription.charged", Some(SubscriptionEntity(subscriptionId, currentEnd))).value;
            var i := IndexOfId(users, userId).value;
            cancelled[i].subscription.value.status == Cancelled
            && renewed[i].subscription.value.status == Active
            && renewed[i].subscription.value.endDate == currentEnd * 1000
  {
    var i := IndexOfId(users, userId).value;
    var cancelled := CancelSubscription(users, userId).value;
    var k := IndexOfSubscription(cancelled, subscriptionId);
    assert cancelled[i].subscription.value.id == subscriptionId;
    assert k.Some?;
  }

  /**
   A verified subscription can be cancelled, which keeps its id, plan and
   dates and marks it cancelled.
   */
  lemma VerifiedSubscriptionCanBeCancelled(users: UserStore, userId: Id, subscriptionId: string, planId: string,
                                           startDate: int, endDate: int)
    requires FindById(users, userId).Some? && subscriptionId != ""
    ensures var v := VerifySubscription(users, userId, true, subscriptionId, planId, startDate, endDate);
            && v.Ok? && CancelSubscription(v.value, userId).Ok?
            && CancelSubscription(v.value, userId).value[IndexOfId(users, userId).value].subscription
               == Some(Subscription(subscriptionId, Cancelled, planId, startDate, endDate))
  {
    var i := IndexOfId(users, userId).value;
    var v := VerifySubscription(users, userId, true, subscriptionId, planId, startDate, endDate).value;
    FirstIdUnchanged(users, v, userId, i);
  }
}
