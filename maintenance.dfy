/**
 * Deleting records: an income, fixed cost or expense by id (app.js:449-450,
 * 612-613, 766-767), and a fixed-cost type or expense category, whose
 * entries are first moved to another type when it is still in use
 * (app.js:778-783, 855-905).
 */
module Maintenance {
  import opened Wrappers
  import opened Records
  import opened Calculations

  /** `list.findIndex(x => x.id === id)` over entries. */
  function IndexOfId(s: seq<Entry>, id: string): (i: int)
    ensures -1 <= i < |s|
    ensures i == -1 <==> forall k :: 0 <= k < |s| ==> s[k].id != id
    ensures 0 <= i ==> s[i].id == id && forall k :: 0 <= k < i ==> s[k].id != id
  {
    if s == [] then -1
    else if s[0].id == id then 0
    else
      var i := IndexOfId(s[1..], id);
      if i < 0 then -1 else i + 1
  }

  /** `const i = list.findIndex(…); if (i >= 0) list.splice(i, 1)`. */
  function DeleteById(s: seq<Entry>, id: string): (r: seq<Entry>)
    ensures r == s <==> forall k :: 0 <= k < |s| ==> s[k].id != id
    ensures r != s ==> |r| == |s| - 1
  {
    var i := IndexOfId(s, id);
    if i >= 0 then RemoveAt(s, i) else s
  }

  lemma {:induction false} SumForMonthRemoveAt(s: seq<Entry>, i: nat, month: string)
    requires i < |s|
    ensures SumForMonth(RemoveAt(s, i), month)
         == SumForMonth(s, month) - (if s[i].month == month then s[i].amountCents else 0)
  {
    assert s == s[..i] + [s[i]] + s[i + 1..];
    SumForMonthAppend(s[..i] + [s[i]], s[i + 1..], month);
    SumForMonthAdd(s[..i], s[i], month);
    SumForMonthAppend(s[..i], s[i + 1..], month);
  }

  /**
   * Deleting by id removes the first entry with that id and nothing else,
   * and takes its cents out of its month; an unknown id changes nothing.
   */
  lemma DeleteByIdSpec(s: seq<Entry>, id: string, month: string)
    ensures var r := DeleteById(s, id);
      && ((forall k :: 0 <= k < |s| ==> s[k].id != id) ==> r == s)
      && (forall i :: 0 <= i < |s| && s[i].id == id && (forall k :: 0 <= k < i ==> s[k].id != id) ==>
            && r == s[..i] + s[i + 1..]
            && multiset(r) + multiset{s[i]} == multiset(s)
            && SumForMonth(r, month)
               == SumForMonth(s, month) - (if s[i].month == month then s[i].amountCents else 0))
  {
    var j := IndexOfId(s, id);
    if j >= 0 {
      assert DeleteById(s, id) == s[..j] + s[j + 1..];
      RemoveAtMultiset(s, j);
      SumForMonthRemoveAt(s, j, month);
      forall i | 0 <= i < |s| && s[i].id == id && (forall k :: 0 <= k < i ==> s[k].id != id)
        ensures i == j
      {
        if i < j {
          assert false;
        } else if j < i {
          assert false;
        }
      }
    }
  }

  /** Which reference list a type belongs to: fixed-cost types or expense categories. */
  datatype TypeKind = FixedType | ExpenseCategory

  /** `list.findIndex(x => x.id === id)` over types. */
  function TypeIndex(list: seq<TypeDef>, id: string): (i: int)
    ensures -1 <= i < |list|
    ensures i == -1 <==> forall k :: 0 <= k < |list| ==> list[k].id != id
    ensures 0 <= i ==> list[i].id == id && forall k :: 0 <= k < i ==> list[k].id != id
  {
    if list == [] then -1
    else if list[0].id == id then 0
    else
      var i := TypeIndex(list[1..], id);
      if i < 0 then -1 else i + 1
  }

  /** `usedCount(id)`: how many entries refer to the type. */
  function UsedCount(entries: seq<Entry>, id: string): (r: nat)
    ensures r <= |entries|
  {
    if entries == [] then 0
    else UsedCount(entries[..|entries| - 1], id) + (if entries[|entries| - 1].tag == id then 1 else 0)
  }

  /** No entry refers to the type exactly when its use count is zero. */
  lemma {:induction false} UsedCountZero(entries: seq<Entry>, id: string)
    ensures UsedCount(entries, id) == 0 <==> forall k :: 0 <= k < |entries| ==> entries[k].tag != id
    decreases |entries|
  {
    if entries != [] {
      var p := entries[..|entries| - 1];
      UsedCountZero(p, id);
      assert forall k :: 0 <= k < |p| ==> p[k] == entries[k];
    }
  }

  /** The remap loop: every entry of type `from` now refers to `to`. */
  function Retag(entries: seq<Entry>, from: string, to: string): (r: seq<Entry>)
    ensures |r| == |entries|
  {
    seq(|entries|, k requires 0 <= k < |entries| =>
      if entries[k].tag == from then entries[k].(tag := to) else entries[k])
  }

  lemma RetagPrefix(entries: seq<Entry>, from: string, to: string, n: nat)
    requires n <= |entries|
    ensures Retag(entries[..n], from, to) == Retag(entries, from, to)[..n]
  {
  }

  /**
   * After the remap no entry refers to the deleted type, the target gains
   * exactly its entries, and every other type keeps its count.
   */
  lemma {:induction false} RetagCounts(entries: seq<Entry>, from: string, to: string)
    requires to != from
    ensures UsedCount(Retag(entries, from, to), from) == 0
    ensures UsedCount(Retag(entries, from, to), to) == UsedCount(entries, to) + UsedCount(entries, from)
    ensures forall other :: other != from && other != to ==>
      UsedCount(Retag(entries, from, to), other) == UsedCount(entries, other)
    decreases |entries|
  {
    if entries != [] {
      var n := |entries| - 1;
      var r := Retag(entries, from, to);
      RetagPrefix(entries, from, to, n);
      RetagCounts(entries[..n], from, to);
      assert r[..n] == Retag(entries[..n], from, to);
    }
  }

  /** Two lists that agree on every entry's month and cents have the same month sums. */
  lemma {:induction false} SumForMonthPointwise(s: seq<Entry>, t: seq<Entry>, month: string)
    requires |s| == |t|
    requires forall k :: 0 <= k < |s| ==> s[k].month == t[k].month && s[k].amountCents == t[k].amountCents
    ensures SumForMonth(s, month) == SumForMonth(t, month)
    decreases |s|
  {
    if s != [] {
      var n := |s| - 1;
      SumForMonthPointwise(s[..n], t[..n], month);
      assert s == s[..n] + [s[n]];
      assert t == t[..n] + [t[n]];
      SumForMonthAdd(s[..n], s[n], month);
      SumForMonthAdd(t[..n], t[n], month);
    }
  }

  /** The remap only changes references: every month keeps its sum. */
  lemma RetagKeepsSums(entries: seq<Entry>, from: string, to: string, month: string)
    ensures SumForMonth(Retag(entries, from, to), month) == SumForMonth(entries, month)
  {
    SumForMonthPointwise(Retag(entries, from, to), entries, month);
  }

  /** `list.filter(x => x.id !== id)`: where the entries may be moved. */
  function Alternatives(list: seq<TypeDef>, id: string): (r: seq<TypeDef>)
    ensures forall k :: 0 <= k < |r| ==> r[k].id != id && r[k] in list
    ensures forall t :: t in list && t.id != id ==> t in r
  {
    if list == [] then []
    else
      var last := list[|list| - 1];
      var r := Alternatives(list[..|list| - 1], id);
      assert forall t :: t in list[..|list| - 1] ==> t in list;
      r + (if last.id != id then [last] else [])
  }

  /** Filtering two lists equals filtering each and concatenating: the filter keeps list order. */
  lemma {:induction false} AlternativesAppend(s: seq<TypeDef>, t: seq<TypeDef>, id: string)
    ensures Alternatives(s + t, id) == Alternatives(s, id) + Alternatives(t, id)
    decreases |t|
  {
    if t == [] {
      assert s + t == s;
    } else {
      var t' := t[..|t| - 1];
      assert (s + t)[..|s + t| - 1] == s + t';
      AlternativesAppend(s, t', id);
      var last := t[|t| - 1];
      var bit := if last.id != id then [last] else [];
      assert Alternatives(s, id) + Alternatives(t', id) + bit == Alternatives(s, id) + (Alternatives(t', id) + bit);
    }
  }

  /** Position k holds the first type of the list whose id is not `id`. */
  predicate FirstOtherAt(list: seq<TypeDef>, id: string, k: int) {
    0 <= k < |list| && list[k].id != id && forall j :: 0 <= j < k ==> list[j].id == id
  }

  /** The first alternative is the first type of the list with another id. */
  lemma {:induction false} AlternativesFirst(list: seq<TypeDef>, id: string)
    ensures |Alternatives(list, id)| > 0 ==> exists k :: FirstOtherAt(list, id, k) && list[k] == Alternatives(list, id)[0]
    decreases |list|
  {
    if list != [] {
      var n := |list| - 1;
      var p := list[..n];
      AlternativesFirst(p, id);
      var a := Alternatives(p, id);
      assert Alternatives(list, id) == a + (if list[n].id != id then [list[n]] else []);
      if |a| > 0 {
        var k :| FirstOtherAt(p, id, k) && p[k] == a[0];
        forall j | 0 <= j < k ensures list[j].id == id {
          assert list[j] == p[j];
        }
        assert list[k] == p[k];
      } else if list[n].id != id {
        forall j | 0 <= j < n ensures list[j].id == id {
          assert list[j] == p[j] && p[j] in p;
        }
        assert FirstOtherAt(list, id, n);
      }
    }
  }

  /** `alternatives[0]?.id || null`: the first alternative, unless its id is empty. */
  function DefaultTarget(list: seq<TypeDef>, id: string): (r: Option<string>)
    ensures r.Some? ==> r.value != id && r.value != "" && exists t :: t in list && t.id == r.value
    ensures r.None? <==> |Alternatives(list, id)| == 0 || Alternatives(list, id)[0].id == ""
  {
    var alts := Alternatives(list, id);
    if |alts| > 0 && alts[0].id != "" then Some(alts[0].id) else None
  }

  /**
   * The default target is the id of the first type of the list with
   * another id, and there is none exactly when there is no such type or
   * its id is empty.
   */
  lemma DefaultTargetIsFirstOther(list: seq<TypeDef>, id: string)
    ensures DefaultTarget(list, id).None? <==>
      (forall k :: 0 <= k < |list| ==> list[k].id == id) || exists k :: FirstOtherAt(list, id, k) && list[k].id == ""
    ensures forall k :: FirstOtherAt(list, id, k) && DefaultTarget(list, id).Some? ==> DefaultTarget(list, id).value == list[k].id
  {
    var alts := Alternatives(list, id);
    AlternativesFirst(list, id);
    if |alts| > 0 {
      var k :| FirstOtherAt(list, id, k) && list[k] == alts[0];
      forall k' | FirstOtherAt(list, id, k') ensures k' == k {
        if k' < k {
          assert false;
        } else if k < k' {
          assert false;
        }
      }
    } else {
      forall k | 0 <= k < |list| ensures list[k].id == id {
        assert list[k] in list;
      }
    }
  }

  /** `$("mapTo").value || defaultTarget`: the selected option, else the default. */
  function RemapTarget(chosen: string, list: seq<TypeDef>, id: string): Option<string> {
    if chosen != "" then Some(chosen) else DefaultTarget(list, id)
  }

  /** Every entry refers to a type in the list. */
  predicate RefsResolve(entries: seq<Entry>, list: seq<TypeDef>) {
    forall k :: 0 <= k < |entries| ==> HasType(list, entries[k].tag)
  }

  /** Some type of the list has the id. */
  predicate HasType(list: seq<TypeDef>, id: string) {
    exists t :: t in list && t.id == id
  }

  /** A type other than the removed one is still in the list after the splice. */
  lemma KeptAfterRemove(list: seq<TypeDef>, i: nat, t: TypeDef)
    requires i < |list| && t in list && t.id != list[i].id
    ensures t in RemoveAt(list, i)
  {
    var k :| 0 <= k < |list| && list[k] == t;
    assert k != i;
    if k < i {
      assert RemoveAt(list, i)[k] == t;
    } else {
      assert RemoveAt(list, i)[k - 1] == t;
    }
  }

  /**
   * Deleting an unused type leaves no entry pointing at a missing type, if
   * none did before.
   */
  lemma UnusedDeleteResolves(entries: seq<Entry>, list: seq<TypeDef>, id: string)
    requires RefsResolve(entries, list)
    requires TypeIndex(list, id) >= 0 && UsedCount(entries, id) == 0
    ensures RefsResolve(entries, RemoveAt(list, TypeIndex(list, id)))
  {
    var i := TypeIndex(list, id);
    UsedCountZero(entries, id);
    forall k | 0 <= k < |entries|
      ensures HasType(RemoveAt(list, i), entries[k].tag)
    {
      var t :| t in list && t.id == entries[k].tag;
      KeptAfterRemove(list, i, t);
    }
  }

  /**
   * Remapping to another type of the list and then deleting leaves no entry
   * pointing at a missing type, if none did before.
   */
  lemma RemapDeleteResolves(entries: seq<Entry>, list: seq<TypeDef>, id: string, to: string)
    requires RefsResolve(entries, list)
    requires TypeIndex(list, id) >= 0
    requires to != id && exists t :: t in list && t.id == to
    ensures RefsResolve(Retag(entries, id, to), RemoveAt(list, TypeIndex(list, id)))
  {
    var i := TypeIndex(list, id);
    var r := Retag(entries, id, to);
    forall k | 0 <= k < |r|
      ensures HasType(RemoveAt(list, i), r[k].tag)
    {
      var t :| t in list && t.id == r[k].tag;
      KeptAfterRemove(list, i, t);
    }
  }

  /** The default target is a type that stays in the list, so remapping to it resolves. */
  lemma DefaultTargetResolves(entries: seq<Entry>, list: seq<TypeDef>, id: string)
    requires RefsResolve(entries, list)
    requires TypeIndex(list, id) >= 0 && DefaultTarget(list, id).Some?
    ensures RefsResolve(Retag(entries, id, DefaultTarget(list, id).value), RemoveAt(list, TypeIndex(list, id)))
  {
    RemapDeleteResolves(entries, list, id, DefaultTarget(list, id).value);
  }

  /** Dropping an entry keeps every other entry's reference resolving. */
  lemma RemoveAtResolves(entries: seq<Entry>, i: nat, list: seq<TypeDef>)
    requires i < |entries| && RefsResolve(entries, list)
    ensures RefsResolve(RemoveAt(entries, i), list)
  {
    var r := RemoveAt(entries, i);
    forall k | 0 <= k < |r| ensures HasType(list, r[k].tag) {
      var k' := if k < i then k else k + 1;
      assert r[k] == entries[k'];
    }
  }

  /** How the delete dialog of `deleteType(id)` ends. */
  datatype TypeDeleteOutcome = TypeNotFound | DeletedUnused | Remapped(to: string) | NoAlternative

  /** The type list and entry list after `deleteType(id)`, and how it ended. */
  datatype TypeDeletion = TypeDeletion(outcome: TypeDeleteOutcome, list: seq<TypeDef>, entries: seq<Entry>)

  /**
   * `deleteType(id)` with `chosen` the value of the "move to" selection
   * ("" when it offers nothing): an unknown id does nothing, an unused type
   * is spliced out, a used one has its entries moved to the target first,
   * and without a target nothing changes.
   */
  function DeleteTypeResult(list: seq<TypeDef>, entries: seq<Entry>, id: string, chosen: string): (d: TypeDeletion)
    ensures |d.entries| == |entries|
    ensures d.list == list || |d.list| == |list| - 1
  {
    var i := TypeIndex(list, id);
    if i < 0 then TypeDeletion(TypeNotFound, list, entries)
    else if UsedCount(entries, id) == 0 then TypeDeletion(DeletedUnused, RemoveAt(list, i), entries)
    else match RemapTarget(chosen, list, id)
      case None => TypeDeletion(NoAlternative, list, entries)
      case Some(to) => TypeDeletion(Remapped(to), RemoveAt(list, i), Retag(entries, id, to))
  }

  /** The selection offers only the other types of the list. */
  predicate Offered(list: seq<TypeDef>, id: string, chosen: string) {
    chosen == "" || exists k :: 0 <= k < |Alternatives(list, id)| && Alternatives(list, id)[k].id == chosen
  }

  /**
   * Which way `deleteType(id)` ends: not found exactly when no type has the
   * id; spliced out at once exactly when no entry uses it; otherwise moved
   * to the selected type, else to the default target, and stopped exactly
   * when neither exists.
   */
  lemma DeleteTypeOutcome(list: seq<TypeDef>, entries: seq<Entry>, id: string, chosen: string)
    ensures var d := DeleteTypeResult(list, entries, id, chosen);
      && (d.outcome.TypeNotFound? <==> TypeIndex(list, id) < 0)
      && (d.outcome.DeletedUnused? <==> TypeIndex(list, id) >= 0 && UsedCount(entries, id) == 0)
      && (d.outcome.NoAlternative? <==>
            TypeIndex(list, id) >= 0 && UsedCount(entries, id) > 0 && chosen == "" && DefaultTarget(list, id).None?)
      && (d.outcome.Remapped? <==>
            TypeIndex(list, id) >= 0 && UsedCount(entries, id) > 0 && (chosen != "" || DefaultTarget(list, id).Some?))
      && (d.outcome.Remapped? && chosen != "" ==> d.outcome.to == chosen)
      && (d.outcome.Remapped? && chosen == "" ==> DefaultTarget(list, id) == Some(d.outcome.to))
  {
  }

  /**
   * A type deletion that goes through removes the first type with the id
   * and leaves no entry referring to it; the amounts of every month stay;
   * with a remap the target gains exactly the moved entries and every other
   * type keeps its count. One that does not go through changes nothing.
   */
  lemma DeleteTypeEffect(list: seq<TypeDef>, entries: seq<Entry>, id: string, chosen: string, month: string)
    requires Offered(list, id, chosen)
    ensures var d := DeleteTypeResult(list, entries, id, chosen);
      && (d.outcome.TypeNotFound? || d.outcome.NoAlternative? ==> d.list == list && d.entries == entries)
      && (d.outcome.DeletedUnused? || d.outcome.Remapped? ==>
            && TypeIndex(list, id) >= 0
            && d.list == RemoveAt(list, TypeIndex(list, id)) && |d.list| == |list| - 1
            && UsedCount(d.entries, id) == 0
            && |d.entries| == |entries|
            && SumForMonth(d.entries, month) == SumForMonth(entries, month))
      && (d.outcome.DeletedUnused? ==> d.entries == entries)
      && (d.outcome.Remapped? ==>
            && d.outcome.to != id
            && (forall k :: 0 <= k < |entries| && entries[k].tag != id ==> d.entries[k] == entries[k])
            && (forall k :: 0 <= k < |entries| && entries[k].tag == id ==>
                 d.entries[k] == entries[k].(tag := d.outcome.to))
            && UsedCount(d.entries, d.outcome.to) == UsedCount(entries, d.outcome.to) + UsedCount(entries, id)
            && forall other :: other != id && other != d.outcome.to ==>
                 UsedCount(d.entries, other) == UsedCount(entries, other))
  {
    var i := TypeIndex(list, id);
    if i >= 0 && UsedCount(entries, id) > 0 {
      var target := RemapTarget(chosen, list, id);
      if target.Some? {
        var to := target.value;
        if chosen != "" {
          var k :| 0 <= k < |Alternatives(list, id)| && Alternatives(list, id)[k].id == chosen;
        }
        RetagEffect(entries, id, to, month);
      }
    }
  }

  /** What the remap loop does to the entries, for a target other than the deleted type. */
  lemma RetagEffect(entries: seq<Entry>, id: string, to: string, month: string)
    requires to != id
    ensures var r := Retag(entries, id, to);
      && |r| == |entries|
      && SumForMonth(r, month) == SumForMonth(entries, month)
      && (forall k :: 0 <= k < |entries| && entries[k].tag != id ==> r[k] == entries[k])
      && (forall k :: 0 <= k < |entries| && entries[k].tag == id ==> r[k] == entries[k].(tag := to))
      && UsedCount(r, id) == 0
      && UsedCount(r, to) == UsedCount(entries, to) + UsedCount(entries, id)
      && forall other :: other != id && other != to ==> UsedCount(r, other) == UsedCount(entries, other)
  {
    RetagCounts(entries, id, to);
    RetagKeepsSums(entries, id, to, month);
  }

  /** After a type deletion through the selection, every entry still refers to a type in the list. */
  lemma DeleteTypeResolves(list: seq<TypeDef>, entries: seq<Entry>, id: string, chosen: string)
    requires RefsResolve(entries, list) && Offered(list, id, chosen)
    ensures var d := DeleteTypeResult(list, entries, id, chosen);
      RefsResolve(d.entries, d.list)
  {
    var d := DeleteTypeResult(list, entries, id, chosen);
    if d.outcome.DeletedUnused? {
      UnusedDeleteResolves(entries, list, id);
    } else if d.outcome.Remapped? {
      if chosen == "" {
        DefaultTargetResolves(entries, list, id);
      } else {
        var k :| 0 <= k < |Alternatives(list, id)| && Alternatives(list, id)[k].id == chosen;
        RemapDeleteResolves(entries, list, id, chosen);
      }
    }
  }
}
