/**
 The Expense document (src/model/expense.js): an expense owns an ordered
 sequence of splits, one share per involved user.
 */
module ExpenseModel {
  import opened Results

  /** Document ids (ObjectIds) compared by their string form. */
  type Id = string

  /** How an expense is divided; the schema enum. */
  datatype SplitType = Equal | Percentage | Exact

  /** Whether a share is still owed. */
  datatype SplitStatus = Pending | Settled

  const DefaultCategory: string := "General"

  /** One user's share; `percentage` is recorded only for PERCENTAGE expenses. */
  datatype Split = Split(user: Id, amount: int, percentage: Option<int>, status: SplitStatus)

  /** An expense with its amount in paise. */
  datatype Expense = Expense(
    id: Id,
    description: string,
    amount: int,
    category: string,
    payer: Id,
    group: Id,
    splitType: SplitType,
    splits: seq<Split>)

  /** The spelling of each split type in requests and documents. */
  function SplitTypeName(t: SplitType): string
  {
    match t
    case Equal => "EQUAL"
    case Percentage => "PERCENTAGE"
    case Exact => "EXACT"
  }

  /** The schema's enum check: only the three spellings name a split type. */
  function ParseSplitType(s: string): (r: Option<SplitType>)
    ensures r.Some? <==> s in {"EQUAL", "PERCENTAGE", "EXACT"}
    ensures r.Some? ==> SplitTypeName(r.value) == s
  {
    if s == "EQUAL" then Some(Equal)
    else if s == "PERCENTAGE" then Some(Percentage)
    else if s == "EXACT" then Some(Exact)
    else None
  }

  /** Every split type's spelling parses back to it, and the spellings are distinct. */
  lemma SplitTypeNameRoundTrip(t: SplitType)
    ensures ParseSplitType(SplitTypeName(t)) == Some(t)
  {
  }

  /**
   The schema's `required` validators that a controller can violate:
   an empty description, payer or group fails validation on save.
   */
  predicate SchemaValid(e: Expense)
  {
    e.description != "" && e.payer != "" && e.group != ""
  }

  /** The amounts of the splits, in order. */
  function SplitAmounts(splits: seq<Split>): (r: seq<int>)
    ensures |r| == |splits|
    ensures forall i :: 0 <= i < |splits| ==> r[i] == splits[i].amount
  {
    seq(|splits|, i requires 0 <= i < |splits| => splits[i].amount)
  }

  /** The users of the splits, in order. */
  function SplitUsers(splits: seq<Split>): (r: seq<Id>)
    ensures |r| == |splits|
    ensures forall i :: 0 <= i < |splits| ==> r[i] == splits[i].user
  {
    seq(|splits|, i requires 0 <= i < |splits| => splits[i].user)
  }
}
