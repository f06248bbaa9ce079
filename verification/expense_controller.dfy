/**
 Expense creation and settlement of src/controllers/expenseController.js:
 who may add an expense, how its amount is divided under the EQUAL,
 PERCENTAGE and EXACT strategies, and the payer-only PENDING to SETTLED
 transition of one share. Amounts are paise, percentages whole numbers.
 */
module ExpenseController {
  import opened Results
  import opened Money
  import opened Paging
  import opened ExpenseModel
  import GroupModel

  /**
   One entry of `splitData`. For EQUAL an entry is just a user id (`user`);
   PERCENTAGE reads `user` and `percentage`, EXACT reads `user` and `amount`.
   */
  datatype SplitItem = SplitItem(user: Id, percentage: int, amount: int)

  /** The body of an add-expense request; `amount` 0 stands for absent as well. */
  datatype AddExpenseRequest = AddExpenseRequest(
    description: string,
    amount: int,
    groupId: Id,
    splitType: string,
    splitData: Option<seq<SplitItem>>)

  const MsgAddFailed := "Error adding expense"

  function ItemUsers(items: seq<SplitItem>): (r: seq<Id>)
    ensures |r| == |items| && forall i :: 0 <= i < |items| ==> r[i] == items[i].user
  {
    seq(|items|, i requires 0 <= i < |items| => items[i].user)
  }

  function ItemPercentages(items: seq<SplitItem>): (r: seq<int>)
    ensures |r| == |items| && forall i :: 0 <= i < |items| ==> r[i] == items[i].percentage
  {
    seq(|items|, i requires 0 <= i < |items| => items[i].percentage)
  }

  function ItemAmounts(items: seq<SplitItem>): (r: seq<int>)
    ensures |r| == |items| && forall i :: 0 <= i < |items| ==> r[i] == items[i].amount
  {
    seq(|items|, i requires 0 <= i < |items| => items[i].amount)
  }

  /** The payer's own share is settled from the start; every other share is owed. */
  function InitialStatus(user: Id, payer: Id): SplitStatus
  {
    if user == payer then Settled else Pending
  }

  /**
   Who shares an EQUAL expense: the users listed in `splitData` when the list
   is non-empty, otherwise every member of the group in member order.
   */
  function EqualParticipants(splitData: Option<seq<SplitItem>>, members: seq<GroupModel.Membership>): seq<Id>
  {
    if splitData.Some? && |splitData.value| > 0 then ItemUsers(splitData.value)
    else seq(|members|, i requires 0 <= i < |members| => members[i].user)
  }

  /** EQUAL: every participant owes the amount divided by their number, rounded to the paisa. */
  function EqualSplits(amount: int, participants: seq<Id>, payer: Id): seq<Split>
  {
    if |participants| == 0 then []
    else
      var share := RoundDiv(amount, |participants|);
      seq(|participants|, i requires 0 <= i < |participants| =>
        Split(participants[i], share, None, InitialStatus(participants[i], payer)))
  }

  /** PERCENTAGE: each listed user owes their percentage of the amount, rounded to the paisa. */
  function PercentageSplits(amount: int, items: seq<SplitItem>, payer: Id): seq<Split>
  {
    seq(|items|, i requires 0 <= i < |items| =>
      Split(items[i].user, RoundDiv(amount * items[i].percentage, 100), Some(items[i].percentage),
            InitialStatus(items[i].user, payer)))
  }

  /** EXACT: each listed user owes the amount listed for them. */
  function ExactSplits(items: seq<SplitItem>, payer: Id): seq<Split>
  {
    seq(|items|, i requires 0 <= i < |items| =>
      Split(items[i].user, items[i].amount, None, InitialStatus(items[i].user, payer)))
  }

  /**
   The split computation of `addExpense` for a known split type. Iterating
   an absent `splitData` throws, which the handler answers with 500.
   */
  function ComputeSplits(t: SplitType, amount: int, splitData: Option<seq<SplitItem>>,
                         members: seq<GroupModel.Membership>, payer: Id): (r: Result<seq<Split>>)
    ensures t == Equal ==> r.Ok?
    ensures t != Equal && splitData.None? ==> r == Err(Failure(500, MsgAddFailed))
    ensures t == Percentage && splitData.Some? ==>
              (r.Ok? <==> Sum(ItemPercentages(splitData.value)) == 100)
    ensures t == Percentage && r.Err? && splitData.Some? ==> r.failure == Failure(400, "Percentages must add up to 100%")
    ensures t == Exact && splitData.Some? ==> (r.Ok? <==> Sum(ItemAmounts(splitData.value)) == amount)
    ensures t == Exact && r.Err? && splitData.Some? ==>
              r.failure == Failure(400, "Split amounts must equal the total expense amount")
    // a share is settled exactly when it is the payer's
    ensures r.Ok? ==> forall i :: 0 <= i < |r.value| ==> (r.value[i].status == Settled <==> r.value[i].user == payer)
    // only PERCENTAGE shares record a percentage
    ensures r.Ok? ==> forall i :: 0 <= i < |r.value| ==> (r.value[i].percentage.Some? <==> t == Percentage)
    // one share per participant, in input order
    ensures r.Ok? && t == Equal ==> SplitUsers(r.value) == EqualParticipants(splitData, members)
    ensures r.Ok? && t != Equal ==> SplitUsers(r.value) == ItemUsers(splitData.value)
  {
    match t
    case Equal =>
      var participants := EqualParticipants(splitData, members);
      var splits := EqualSplits(amount, participants, payer);
      assert SplitUsers(splits) == participants;
      Ok(splits)
    case Percentage =>
      if splitData.None? then Err(Failure(500, MsgAddFailed))
      else if Sum(ItemPercentages(splitData.value)) != 100 then Err(Failure(400, "Percentages must add up to 100%"))
      else
        var splits := PercentageSplits(amount, splitData.value, payer);
        assert SplitUsers(splits) == ItemUsers(splitData.value);
        Ok(splits)
    case Exact =>
      if splitData.None? then Err(Failure(500, MsgAddFailed))
      else if Sum(ItemAmounts(splitData.value)) != amount then
        Err(Failure(400, "Split amounts must equal the total expense amount"))
      else
        var splits := ExactSplits(splitData.value, payer);
        assert SplitUsers(splits) == ItemUsers(splitData.value);
        Ok(splits)
  }

  /**
   EQUAL shares are all the same rounded quotient, so their total misses the
   amount by at most half a paisa per participant; no remainder is moved
   onto any share.
   */
  lemma EqualSplitDrift(amount: int, splitData: Option<seq<SplitItem>>, members: seq<GroupModel.Membership>,
                        payer: Id)
    requires |EqualParticipants(splitData, members)| > 0
    ensures var n := |EqualParticipants(splitData, members)|;
            var splits := ComputeSplits(Equal, amount, splitData, members, payer).value;
            && |splits| == n
            && (forall i :: 0 <= i < |splits| ==> -n <= 2 * (n * splits[i].amount - amount) <= n)
            && (forall i, j :: 0 <= i < |splits| && 0 <= j < |splits| ==> splits[i].amount == splits[j].amount)
            && -n <= 2 * (Sum(SplitAmounts(splits)) - amount) <= n
  {
    var n := |EqualParticipants(splitData, members)|;
    var splits := ComputeSplits(Equal, amount, splitData, members, payer).value;
    var share := RoundDiv(amount, n);
    SumOfCopies(SplitAmounts(splits), share);
    assert Sum(SplitAmounts(splits)) == n * share;
  }

  /** Accepted EXACT shares add up to the expense amount exactly. */
  lemma ExactSplitsSumToAmount(amount: int, items: seq<SplitItem>, members: seq<GroupModel.Membership>, payer: Id)
    requires ComputeSplits(Exact, amount, Some(items), members, payer).Ok?
    ensures Sum(SplitAmounts(ComputeSplits(Exact, amount, Some(items), members, payer).value)) == amount
    ensures forall i :: 0 <= i < |items| ==>
              ComputeSplits(Exact, amount, Some(items), members, payer).value[i].amount == items[i].amount
  {
    var splits := ComputeSplits(Exact, amount, Some(items), members, payer).value;
    assert SplitAmounts(splits) == ItemAmounts(items);
  }

  /**
   Accepted PERCENTAGE shares: each is its percentage of the amount rounded
   to the paisa, so the total misses the amount by at most half a paisa per
   share.
   */
  lemma PercentageSplitDrift(amount: int, items: seq<SplitItem>, members: seq<GroupModel.Membership>, payer: Id)
    requires ComputeSplits(Percentage, amount, Some(items), members, payer).Ok?
    ensures var splits := ComputeSplits(Percentage, amount, Some(items), members, payer).value;
            && |splits| == |items|
            && (forall i :: 0 <= i < |items| ==> splits[i].percentage == Some(items[i].percentage))
            && (forall i :: 0 <= i < |items| ==>
                  -100 <= 2 * (100 * splits[i].amount - amount * items[i].percentage) <= 100)
            && -|items| <= 2 * (Sum(SplitAmounts(splits)) - amount) <= |items|
  {
    var splits := ComputeSplits(Percentage, amount, Some(items), members, payer).value;
    RoundingErrorsAdd(amount, items, splits);
    assert amount * Sum(ItemPercentages(items)) == amount * 100;
  }

  /**
   Worked cases, amounts in paise: 40/35/25 of 200.00 is 80.00/70.00/50.00,
   while 40/35/24 is refused; 100.00 shared by three is 33.33 each, one
   paisa short of the total.
   */
  lemma SplitExamples(payer: Id)
    ensures var items := [SplitItem("a", 40, 0), SplitItem("b", 35, 0), SplitItem("c", 25, 0)];
            var r := ComputeSplits(Percentage, 20000, Some(items), [], payer);
            r.Ok? && SplitAmounts(r.value) == [8000, 7000, 5000]
    ensures var items := [SplitItem("a", 40, 0), SplitItem("b", 35, 0), SplitItem("c", 24, 0)];
            ComputeSplits(Percentage, 20000, Some(items), [], payer) == Err(Failure(400, "Percentages must add up to 100%"))
    ensures var items := [SplitItem("a", 0, 0), SplitItem("b", 0, 0), SplitItem("c", 0, 0)];
            var r := ComputeSplits(Equal, 10000, Some(items), [], payer);
            r.Ok? && SplitAmounts(r.value) == [3333, 3333, 3333] && Sum(SplitAmounts(r.value)) == 9999
  {
    var items := [SplitItem("a", 40, 0), SplitItem("b", 35, 0), SplitItem("c", 25, 0)];
    assert ItemPercentages(items) == [40, 35, 25];
    assert [40, 35, 25][..2] == [40, 35] && [40, 35][..1] == [40] && [40][..0] == [];
    assert Sum([40, 35, 25]) == 100;
    assert RoundDiv(20000 * 40, 100) == 8000 && RoundDiv(20000 * 35, 100) == 7000 && RoundDiv(20000 * 25, 100) == 5000;
    assert SplitAmounts(PercentageSplits(20000, items, payer)) == [8000, 7000, 5000];
    var bad := [SplitItem("a", 40, 0), SplitItem("b", 35, 0), SplitItem("c", 24, 0)];
    assert ItemPercentages(bad) == [40, 35, 24];
    assert [40, 35, 24][..2] == [40, 35];
    assert Sum([40, 35, 24]) == 99;
    var eq := ComputeSplits(Equal, 10000, Some([SplitItem("a", 0, 0), SplitItem("b", 0, 0), SplitItem("c", 0, 0)]), [], payer);
    assert SplitAmounts(eq.value) == [3333, 3333, 3333];
    assert [3333, 3333, 3333][..2] == [3333, 3333] && [3333, 3333][..1] == [3333] && [3333][..0] == [];
  }

  /** Per-share rounding errors of at most half a paisa add up over the shares. */
  lemma {:induction false} RoundingErrorsAdd(amount: int, items: seq<SplitItem>, splits: seq<Split>)
    requires |splits| == |items|
    requires forall i :: 0 <= i < |items| ==>
               -100 <= 2 * (100 * splits[i].amount - amount * items[i].percentage) <= 100
    ensures -100 * |items| <= 2 * (100 * Sum(SplitAmounts(splits)) - amount * Sum(ItemPercentages(items))) <= 100 * |items|
  {
    if |items| > 0 {
      var n := |items| - 1;
      assert SplitAmounts(splits)[..n] == SplitAmounts(splits[..n]);
      assert ItemPercentages(items)[..n] == ItemPercentages(items[..n]);
      RoundingErrorsAdd(amount, items[..n], splits[..n]);
      assert amount * Sum(ItemPercentages(items)) == amount * Sum(ItemPercentages(items[..n])) + amount * items[n].percentage;
    }
  }

  /**
   `addExpense`. `groups` is the group collection, `requester` the
   authenticated user (who becomes the payer) and `newId` the id the
   database assigns. Unknown split types and empty descriptions reach the
   schema validators on save, which fail with 500.
   */
  function AddExpense(groups: map<Id, GroupModel.Group>, req: AddExpenseRequest, requester: Id, newId: Id)
    : (r: Result<Expense>)
    // required fields are checked before any lookup
    ensures req.amount == 0 || req.groupId == "" || req.splitType == ""
            ==> r == Err(Failure(400, "Amount, Group ID, and Split Type are required"))
    ensures req.amount != 0 && req.groupId != "" && req.splitType != "" && req.groupId !in groups
            ==> r == Err(Failure(404, "Group not found"))
    // only members other than viewers may add expenses
    ensures req.amount != 0 && req.groupId != "" && req.splitType != "" && req.groupId in groups
            && GroupModel.RoleOf(groups[req.groupId], requester).None?
            ==> r == Err(Failure(403, "You are not in this group"))
    ensures req.amount != 0 && req.groupId != "" && req.splitType != "" && req.groupId in groups
            && GroupModel.RoleOf(groups[req.groupId], requester) == Some(GroupModel.Viewer)
            ==> r.Err? && r.failure.status == 403
    ensures r.Ok? ==> req.groupId in groups
                      && GroupModel.RoleOf(groups[req.groupId], requester).Some?
                      && GroupModel.RoleOf(groups[req.groupId], requester) != Some(GroupModel.Viewer)
    // past the required fields and the group lookup, a 403 comes exactly from the role gate
    ensures req.amount != 0 && req.groupId != "" && req.splitType != "" && req.groupId in groups ==>
              ((r.Err? && r.failure.status == 403)
               <==> !GroupModel.Allowed(groups[req.groupId], requester, GroupModel.AddExpenseAction))
    // an admitted request with an unknown split type fails on save
    ensures req.amount != 0 && req.groupId != "" && req.splitType != "" && req.groupId in groups
            && GroupModel.Allowed(groups[req.groupId], requester, GroupModel.AddExpenseAction)
            && ParseSplitType(req.splitType).None?
            ==> r == Err(Failure(500, MsgAddFailed))
    // an admitted request succeeds exactly when its splits compute and the document passes the schema
    ensures req.amount != 0 && req.groupId != "" && req.groupId in groups
            && GroupModel.Allowed(groups[req.groupId], requester, GroupModel.AddExpenseAction)
            && ParseSplitType(req.splitType).Some? ==>
              var t := ParseSplitType(req.splitType).value;
              var splits := ComputeSplits(t, req.amount, req.splitData, groups[req.groupId].members, requester);
              && (splits.Err? ==> r == Err(splits.failure))
              && (splits.Ok? ==>
                    var e := Expense(newId, req.description, req.amount, DefaultCategory, requester, req.groupId,
                                     t, splits.value);
                    (SchemaValid(e) ==> r == Ok(e)) && (!SchemaValid(e) ==> r == Err(Failure(500, MsgAddFailed))))
    // the stored expense: the requester pays, the fields are copied, the category defaults
    ensures r.Ok? ==> var e := r.value;
                      && e.id == newId && e.payer == requester && e.group == req.groupId
                      && e.amount == req.amount && e.description == req.description
                      && e.category == DefaultCategory && SplitTypeName(e.splitType) == req.splitType
                      && SchemaValid(e)
                      && ComputeSplits(e.splitType, req.amount, req.splitData,
                                       groups[req.groupId].members, requester) == Ok(e.splits)
    ensures r.Ok? ==> forall i :: 0 <= i < |r.value.splits| ==>
                        (r.value.splits[i].status == Settled <==> r.value.splits[i].user == requester)
  {
    if req.amount == 0 || req.groupId == "" || req.splitType == "" then
      Err(Failure(400, "Amount, Group ID, and Split Type are required"))
    else if req.groupId !in groups then Err(Failure(404, "Group not found"))
    else
      var group := groups[req.groupId];
      match GroupModel.RoleOf(group, requester)
      case None => Err(Failure(403, "You are not in this group"))
      case Some(role) =>
        if role == GroupModel.Viewer then
          Err(Failure(403, "Viewers cannot add expenses. Please ask an Admin to upgrade you."))
        else
          match ParseSplitType(req.splitType)
          case None => Err(Failure(500, MsgAddFailed))
          case Some(t) =>
            var splits :- ComputeSplits(t, req.amount, req.splitData, group.members, requester);
            var e := Expense(newId, req.description, req.amount, DefaultCategory, requester, req.groupId, t, splits);
            if !SchemaValid(e) then Err(Failure(500, MsgAddFailed)) else Ok(e)
  }

  /** Index of the first share owed by `user`, as `findIndex` returns it. */
  function FindSplit(splits: seq<Split>, user: Id): (r: Option<nat>)
    ensures r.None? <==> forall i :: 0 <= i < |splits| ==> splits[i].user != user
    ensures r.Some? ==> r.value < |splits| && splits[r.value].user == user
                        && forall j :: 0 <= j < r.value ==> splits[j].user != user
  {
    if |splits| == 0 then None
    else if splits[0].user == user then Some(0)
    else
      var rest := FindSplit(splits[1..], user);
      assert forall i :: 1 <= i < |splits| ==> splits[i] == splits[1..][i - 1];
      if rest.None? then None else Some(rest.value + 1)
  }

  /**
   `settleExpense`: the payer marks the share of `debtorId` repaid. An
   absent `debtorId` throws inside `findIndex` as soon as there is a share
   to compare against.
   */
  function SettleExpense(expenses: map<Id, Expense>, expenseId: Id, debtorId: Option<Id>, requester: Id)
    : (r: Result<Expense>)
    // checks in order: unknown expense, requester not the payer, debtor without a share
    ensures expenseId !in expenses ==> r == Err(Failure(404, "Expense not found"))
    ensures expenseId in expenses && expenses[expenseId].payer != requester
            ==> r == Err(Failure(403, "Only the person who paid this bill can settle it."))
    ensures expenseId in expenses && expenses[expenseId].payer == requester && debtorId.Some?
            && FindSplit(expenses[expenseId].splits, debtorId.value).None?
            ==> r == Err(Failure(404, "This user is not involved in this expense"))
    ensures expenseId in expenses && expenses[expenseId].payer == requester && debtorId.None?
            ==> r == (if |expenses[expenseId].splits| > 0 then Err(Failure(500, "Error settling expense"))
                      else Err(Failure(404, "This user is not involved in this expense")))
    // the payer settling a debtor who has a share always succeeds
    ensures r.Ok? <==> expenseId in expenses && expenses[expenseId].payer == requester && debtorId.Some?
                       && FindSplit(expenses[expenseId].splits, debtorId.value).Some?
    // the debtor's first share is settled; every other share, amount and field is kept
    ensures r.Ok? ==> var e := expenses[expenseId];
                      var k := FindSplit(e.splits, debtorId.value).value;
                      && r.value == e.(splits := r.value.splits)
                      && |r.value.splits| == |e.splits|
                      && r.value.splits[k] == e.splits[k].(status := Settled)
                      && forall j :: 0 <= j < |e.splits| && j != k ==> r.value.splits[j] == e.splits[j]
    // settling an already settled share changes nothing
    ensures r.Ok? ==> var e := expenses[expenseId];
                      e.splits[FindSplit(e.splits, debtorId.value).value].status == Settled ==> r.value == e
  {
    if expenseId !in expenses then Err(Failure(404, "Expense not found"))
    else
      var e := expenses[expenseId];
      if e.payer != requester then Err(Failure(403, "Only the person who paid this bill can settle it."))
      else if debtorId.None? then
        if |e.splits| > 0 then Err(Failure(500, "Error settling expense"))
        else Err(Failure(404, "This user is not involved in this expense"))
      else
        match FindSplit(e.splits, debtorId.value)
        case None => Err(Failure(404, "This user is not involved in this expense"))
        case Some(k) =>
          var splits := e.splits[k := e.splits[k].(status := Settled)];
          assert e.splits[k].status == Settled ==> splits == e.splits;
          Ok(e.(splits := splits))
  }

  /**
   Settlement is idempotent: settling the same debtor again, once the first
   result is saved, succeeds and yields the same expense.
   */
  lemma SettleIdempotent(expenses: map<Id, Expense>, expenseId: Id, debtorId: Option<Id>, requester: Id)
    requires SettleExpense(expenses, expenseId, debtorId, requester).Ok?
    ensures var once := SettleExpense(expenses, expenseId, debtorId, requester).value;
            SettleExpense(expenses[expenseId := once], expenseId, debtorId, requester) == Ok(once)
  {
    var e := expenses[expenseId];
    var once := SettleExpense(expenses, expenseId, debtorId, requester).value;
    var k := FindSplit(e.splits, debtorId.value).value;
    assert SplitUsers(once.splits) == SplitUsers(e.splits);
    assert FindSplit(once.splits, debtorId.value) == Some(k) by {
      FindSplitDependsOnUsers(e.splits, once.splits, debtorId.value);
    }
  }

  /** `findIndex` by user only looks at the users of the shares. */
  lemma {:induction false} FindSplitDependsOnUsers(a: seq<Split>, b: seq<Split>, user: Id)
    requires SplitUsers(a) == SplitUsers(b)
    ensures FindSplit(a, user) == FindSplit(b, user)
  {
    if |a| > 0 && a[0].user != user {
      assert SplitUsers(a[1..]) == SplitUsers(a)[1..];
      assert SplitUsers(b[1..]) == SplitUsers(b)[1..];
      FindSplitDependsOnUsers(a[1..], b[1..], user);
    }
  }

  /** A share once settled stays settled: settlement never reopens a debt. */
  lemma SettleNeverReopens(expenses: map<Id, Expense>, expenseId: Id, debtorId: Option<Id>, requester: Id)
    requires SettleExpense(expenses, expenseId, debtorId, requester).Ok?
    ensures var after := SettleExpense(expenses, expenseId, debtorId, requester).value;
            forall j :: 0 <= j < |after.splits| && expenses[expenseId].splits[j].status == Settled
                        ==> after.splits[j].status == Settled
    ensures var after := SettleExpense(expenses, expenseId, debtorId, requester).value;
            SplitAmounts(after.splits) == SplitAmounts(expenses[expenseId].splits)
  {
    var after := SettleExpense(expenses, expenseId, debtorId, requester).value;
    assert SplitAmounts(after.splits) == SplitAmounts(expenses[expenseId].splits);
  }

  /** The page header of `getGroupExpenses`: page 1 and ten per page by default. */
  function GetGroupExpenses(pageQuery: Option<int>, limitQuery: Option<int>, total: nat): (w: PageWindow)
    ensures (pageQuery.None? || pageQuery.value == 0) ==> w.currentPage == 1
    ensures pageQuery.Some? && pageQuery.value != 0 ==> w.currentPage == pageQuery.value
    ensures (limitQuery.None? || limitQuery.value == 0) ==> w.limit == 10
    ensures limitQuery.Some? && limitQuery.value != 0 ==> w.limit == limitQuery.value
    ensures w.total == total
    // the page count is Math.ceil(total / limit)
    ensures w.totalPages == CeilDiv(total, w.limit)
    ensures w.limit > 0 ==> w.limit * (w.totalPages - 1) < total <= w.limit * w.totalPages
  {
    Window(pageQuery, limitQuery, 10, total)
  }
}
