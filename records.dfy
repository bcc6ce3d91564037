/**
 * The records kept in the budget state (app.js:51-84). All amounts are
 * integer cents; every entry carries the "YYYY-MM" key of its month.
 */
module Records {
  import opened Wrappers

  /**
   * An income, fixed cost or expense. The three lists share one shape and
   * differ only in the name of the reference field: `type` for incomes,
   * `typeId` for fixed costs and `categoryId` for expenses, all held in `tag`.
   */
  datatype Entry = Entry(
    id: string,
    date: string,
    month: string,
    amountCents: int,
    tag: string,
    note: Option<string>)

  /** A fixed-cost type or an expense category. */
  datatype TypeDef = TypeDef(id: string, name: string)

  datatype Plan = Plan(id: string, name: string, targetCents: Option<int>, isArchived: bool)

  /** The monthly savings rate of a plan. */
  datatype Rate = Rate(id: string, planId: string, month: string, amountCents: int)

  datatype MoveType = Deposit | Withdraw

  /** A deposit into or a withdrawal from a savings plan. */
  datatype Move = Move(
    id: string,
    planId: string,
    date: string,
    month: string,
    amountCents: int,
    moveType: MoveType)

  /** `uid(prefix)`: the prefix, '_' and a random token. */
  function Uid(prefix: string, token: string): (id: string)
    ensures |id| == |prefix| + 1 + |token|
    ensures id[..|prefix|] == prefix && id[|prefix|] == '_' && id[|prefix| + 1..] == token
  {
    prefix + "_" + token
  }

  /** The date written for copies and deposits: always the first of the month. */
  function FirstDay(month: string): (date: string)
    ensures |date| == |month| + 3 && date[..|month|] == month && date[|month|..] == "-01"
  {
    month + "-01"
  }

  /** `note || ""`: a missing note becomes the empty one. */
  function NoteOrEmpty(note: Option<string>): string {
    if note.Some? then note.value else ""
  }

  /** `Array.prototype.splice(i, 1)` for an index inside the list. */
  function RemoveAt<T>(s: seq<T>, i: nat): (r: seq<T>)
    requires i < |s|
    ensures |r| == |s| - 1
    ensures forall k :: 0 <= k < i ==> r[k] == s[k]
    ensures forall k :: i <= k < |r| ==> r[k] == s[k + 1]
  {
    s[..i] + s[i + 1..]
  }

  /** Removing one element takes exactly that element out of the multiset. */
  lemma RemoveAtMultiset<T>(s: seq<T>, i: nat)
    requires i < |s|
    ensures multiset(RemoveAt(s, i)) + multiset{s[i]} == multiset(s)
  {
    assert s == s[..i] + [s[i]] + s[i + 1..];
  }

  /** Removing the last element of a list that grew by one gives the list back. */
  lemma RemoveAtLast<T>(s: seq<T>, x: T)
    ensures RemoveAt(s + [x], |s|) == s
  {
    assert (s + [x])[..|s|] == s;
  }
}
