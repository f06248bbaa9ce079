/**
 Price tables of src/constants/paymentConstants.js: credit packs and their
 prices in paise, the reverse table, and the subscription plan ids.
 */
module PaymentConstants {

  const CreditToPaisa: map<int, int> := map[10 := 100, 50 := 400, 100 := 700]

  const PaisaToCredit: map<int, int> := map[100 := 10, 400 := 50, 700 := 100]

  const MonthlyPlan: string := "plan_SF6wBXeRHbwsvD"

  const YearlyPlan: string := "plan_SF6vpd1AcWHO87"

  const SubscriptionPlans: map<string, string> := map["MONTHLY" := MonthlyPlan, "YEARLY" := YearlyPlan]

  /** Two tables are inverse to each other on their whole domains. */
  ghost predicate Inverse(forward: map<int, int>, backward: map<int, int>)
  {
    && forward.Values == backward.Keys
    && backward.Values == forward.Keys
    && (forall c :: c in forward ==> backward[forward[c]] == c)
    && (forall p :: p in backward ==> forward[backward[p]] == p)
  }

  /**
   The packs are exactly 10, 50 and 100 credits, each price is positive
   (so the controller's truthiness test is a key test), and the reverse
   table undoes the forward one in both directions.
   */
  lemma PriceTablesAreInverse()
    ensures CreditToPaisa.Keys == {10, 50, 100}
    ensures PaisaToCredit.Keys == {100, 400, 700}
    ensures forall c :: c in CreditToPaisa ==> CreditToPaisa[c] > 0
    ensures Inverse(CreditToPaisa, PaisaToCredit)
  {
    forall v | v in CreditToPaisa.Values
      ensures v in {100, 400, 700}
    {
      var c :| c in CreditToPaisa && CreditToPaisa[c] == v;
    }
    forall v | v in PaisaToCredit.Values
      ensures v in {10, 50, 100}
    {
      var p :| p in PaisaToCredit && PaisaToCredit[p] == v;
    }
    assert CreditToPaisa[10] in CreditToPaisa.Values && CreditToPaisa[50] in CreditToPaisa.Values
           && CreditToPaisa[100] in CreditToPaisa.Values;
    assert PaisaToCredit[100] in PaisaToCredit.Values && PaisaToCredit[400] in PaisaToCredit.Values
           && PaisaToCredit[700] in PaisaToCredit.Values;
  }

  /** A bigger pack costs strictly more paise. */
  lemma PriceIncreasesWithCredits()
    ensures forall c1, c2 :: c1 in CreditToPaisa && c2 in CreditToPaisa && c1 < c2
                             ==> CreditToPaisa[c1] < CreditToPaisa[c2]
  {
  }

  /** Exactly the monthly and yearly plans exist, and they are different plans. */
  lemma PlansAreDistinct()
    ensures SubscriptionPlans.Keys == {"MONTHLY", "YEARLY"}
    ensures SubscriptionPlans["MONTHLY"] != SubscriptionPlans["YEARLY"]
  {
  }
}
