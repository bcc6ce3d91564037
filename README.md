# Household budget bookkeeping (app.js), modelled in Dafny

This project models the bookkeeping core of a single-page household budget app (`app.js`).
The app keeps one state record of lists:
- incomes, fixed costs and expenses, each tagged with a type or category;
- fixed-cost types and expense categories;
- savings plans, their monthly rates and their moves (deposits and withdrawals).

Every amount is an integer number of cents. Every entry carries the `"YYYY-MM"` key of its month.

The model covers:
- the month helpers `addMonths` and `ymFromDate`;
- the per-month sums and `availableBudget`, `savingsTotalsByPlan` and `getRate`;
- the copy-forward of last month's savings rates and fixed costs into an empty month;
- the one-click deposit and its undo;
- deleting entries by id;
- deleting a type or category, re-pointing its entries to another one;
- the hard delete of a savings plan together with its rates and moves;
- `escapeHtml` and `escapeAttr`.

Fixed costs are stored per month and carried forward by copying the previous month's items (app.js:76, app.js:216-237). There are no versioned fixed-cost records: each month holds its own copies.

Modules:
- `Wrappers`: `Option`.
- `Months`: month keys, `addMonths` and `ymFromDate`, as integer arithmetic on the month index `year * 12 + month - 1`.
- `Records`: the record types, `uid` and `splice`.
- `Calculations`: the sums and aggregations.
- `CopyForward`: what the two copy-forward functions append, and what that achieves.
- `Savings`: deposit, undo and the hard-delete cascade as functions of the lists.
- `Maintenance`: delete-by-id and the type deletion with remap.
- `Escape`: HTML escaping, a one-pass reference escaping, and a decoder for the five entities.
- `AppState`: the state record as class `Budget`. Its fields are the state's lists. Its methods perform the handlers' in-place updates (`push`, `splice`, the `forEach` loops, the `filter` reassignments). Each method's `ensures` ties the new state to the functions above and states the invariants it keeps:
  - every fixed cost and expense refers to an existing type;
  - at most one deposit per plan and month.

`uid` draws random tokens. The model makes them a stream `token: nat -> string` fixed at construction, plus a counter `draws`. The n-th id drawn is `prefix + "_" + token(n)`.

## Model

| member | source | states |
|---|---|---|
| Months.YmFromDate | app.js:19-21 | the result is a prefix of the date, at most 7 characters: exactly the first 7 when the date is that long, the whole date when it is shorter |
| Months.MonthOfFirstDay | app.js:19-21 | the month of the date written for the first day of month ym is ym again |
| Months.NatToStringValue | app.js:34 | the digits printed for a year read back as that year |
| Months.Pad2Value | app.js:34 | the two zero-padded month digits read back as the month |
| Months.IndexOfSpec | app.js:31 | the `split("-")` search finds the first '-', and -1 exactly when there is none |
| Months.MonthIndexOfJoin | app.js:31-32 | two digit fields joined by '-' read as year * 12 + month - 1, a year from 0 to 99 counting as 1900 + year as in the Date constructor |
| Months.KeyShape | app.js:33-34 | every printed key ends in '-' and a two-digit month from 01 to 12 |
| Months.KeyIsNotNaN | app.js:33-34 | a printed key never equals "NaN-NaN" |
| Months.MonthIndex | app.js:31-32 | an index read from a date is at least 1199, since a year of 0 to 99 counts as 1900 + year |
| Months.AddMonths | app.js:30-35 | the result is "NaN-NaN" exactly when the argument does not read as a month |
| Months.AddMonthsShape | app.js:30-35 | `addMonths` gives "NaN-NaN" or a key whose month is 01 to 12 |
| Months.KeyIndex | app.js:30-35 | a printed key with a year of at least 100 reads back as its month index |
| Months.WellFormedIsKey | app.js:30-35 | a canonical "YYYY-MM" key is the key printed for its own month index |
| Months.WellFormedMonthIndex | app.js:31-32 | a canonical key reads as its month index |
| Months.AddMonthsRoundTrip | app.js:30-35 | for a canonical key, adding delta months and then -delta months gives the key back |
| Months.DecemberRollsOver | app.js:30-35 | December plus one month is January of the next year |
| Months.PreviousMonthDiffers | app.js:30-35 | the month before a canonical key is a different key |
| Records.Uid | app.js:46-48 | an id is the prefix, '_' and the token, and each part can be read back |
| Records.FirstDay | app.js:224 | the date written is the month followed by "-01" |
| Records.RemoveAt | app.js:449-450 | `splice(i, 1)` shortens the list by one and shifts the later elements down by one |
| Records.RemoveAtMultiset | app.js:449-450 | `splice(i, 1)` takes exactly the i-th element out |
| Records.RemoveAtLast | app.js:1101 | splicing out the element just pushed gives the list back |
| Calculations.OfMonthMembers | app.js:163-171 | the month filter keeps exactly the entries of that month |
| Calculations.TotalAppend | app.js:164 | the `reduce` over two lists is the sum of the two folds |
| Calculations.OfMonthAppend | app.js:164 | filtering two lists equals filtering each and concatenating |
| Calculations.SumForMonth | app.js:163-171 | defined as the total of the month's entries; SumForMonthAppend, SumForMonthAdd, SumForMonthNone and SumForMonthAll state how it behaves |
| Calculations.SumForMonthAppend | app.js:163-171 | a month sum over two lists is the sum of their month sums |
| Calculations.SumForMonthAdd | app.js:163-171 | adding an entry changes only its own month's sum, by its cents |
| Calculations.SumForMonthNone | app.js:163-171 | a list with no entry of the month sums to 0 for it |
| Calculations.SumForMonthAll | app.js:163-171 | a list of entries all of the month sums to its total |
| Calculations.SumDeposits | app.js:172-176 | defined as the cents of the month's deposits, summed; SumDepositsAppend and SumDepositsAdd state how it behaves |
| Calculations.SumDepositsAppend | app.js:172-176 | the deposits of a month over two lists add up |
| Calculations.SumDepositsAdd | app.js:172-176 | only a deposit of the month changes that month's deposits, by its cents; a withdrawal or a move of another month changes nothing |
| Calculations.AvailableBudget | app.js:177-179 | defined as income minus fixed costs, expenses and deposits of the month; AvailableBudgetAdd states how each new entry moves it |
| Calculations.AvailableBudgetAdd | app.js:177-179 | the budget of a month rises with that month's income and falls with its fixed costs, expenses and deposits; entries of other months leave it unchanged |
| Calculations.ActivePlans | app.js:181 | the active plans are exactly the non-archived ones; ActivePlansAppend states that plan order is kept |
| Calculations.ActivePlansAppend | app.js:181 | the archive filter distributes over concatenation, so it keeps plan order and adds no plan twice |
| Calculations.PlanBalance | app.js:183-185 | defined as the signed fold of the plan's moves; PlanBalanceSplit states it is deposits minus withdrawals |
| Calculations.PlanBalanceSplit | app.js:183-185 | a plan's signed fold is its deposits minus its withdrawals |
| Calculations.PlanBalancesSplit | app.js:183-185 | the same, for every plan of a list |
| Calculations.SavingsTotalsByPlan | app.js:180-188 | one total per non-archived plan, in plan order, with its id and name, equal to its deposits minus its withdrawals; the order and one-per-plan rest on ActivePlansAppend |
| Calculations.GetRate | app.js:189-191 | the result is a rate of the plan and month from the list, and none exactly when the list has none |
| Calculations.GetRateAppend | app.js:189-191 | `find` takes the first match, so a later list is consulted only when the earlier has none |
| CopyForward.FindByPlan | app.js:202 | the rate found belongs to the plan, and none is found exactly when the list has none of it |
| CopyForward.RatesOfMonthAppend | app.js:199 | the month filter of rates distributes over concatenation |
| CopyForward.FindByPlanAppend | app.js:202 | the first match in two lists comes from the earlier list when it has one |
| CopyForward.FindByPlanOfMonth | app.js:198-202 | searching last month's rates by plan finds what `getRate` finds for that plan and last month |
| CopyForward.CopyOf | app.js:202-209 | a plan gets one copy exactly when it had a rate last month |
| CopyForward.CopiedRates | app.js:201-213 | defined as the copies made for the active plans in order; CopiedRatesSound, CopiedRatesComplete and CopiedRatesAtMostOne state what they are |
| CopyForward.CopiedRatesStep | app.js:201-213 | each plan of the loop appends its copy after the copies made before it |
| CopyForward.CopiedRatesSound | app.js:201-213 | every copy belongs to the month and to an active plan that had a rate last month; it carries that plan's first such amount; the k-th copy takes the k-th token |
| CopyForward.CopiedRatesComplete | app.js:201-213 | every active plan with a rate last month gets a copy |
| CopyForward.CopiedRatesAtMostOne | app.js:201-213 | with distinct plan ids, no plan gets two copies |
| CopyForward.RatesCarriedForward | app.js:192-215 | when no active plan had a rate for the month, afterwards `getRate` gives each active plan last month's amount, and nothing where it had none |
| CopyForward.CopyFixed | app.js:226-233 | a copy has the month, the date of its first day, the same cents and type, and the note or "" |
| CopyForward.CopiedFixed | app.js:225-234 | one copy per item of last month, in order, the k-th with the k-th fresh "fix" id |
| CopyForward.CopiedFixedTotal | app.js:225-234 | the copies add up to what the items add up to |
| CopyForward.CopiedFixedMonth | app.js:225-234 | every copy belongs to the target month |
| CopyForward.FixedCarriedForward | app.js:216-237 | after copying into an empty month, `sumFixed(month)` equals `sumFixed(addMonths(month, -1))` |
| CopyForward.FixedCopyKeepsOtherMonths | app.js:216-237 | the copy leaves every other month's fixed-cost sum unchanged |
| Savings.DepositIndex | app.js:1099 | `findIndex` gives the first deposit of the plan and month, and -1 exactly when there is none |
| Savings.RateFor | app.js:1083-1084 | a non-zero amount is the cents of a rate of that plan and month in the list; with no such rate the amount is 0 |
| Savings.DepositDecision | app.js:1081-1088 | a deposit is made exactly when the rate is positive and the plan has no deposit for the month; a rate of 0 or less is refused first |
| Savings.AfterDeposit | app.js:1081-1095 | the moves are unchanged exactly when the deposit is refused (rate missing or not positive, or already deposited). Otherwise exactly one move is appended after the old ones: a deposit of that plan and month under the new id, of the rate's cents, dated the first of the month |
| Savings.AfterUndo | app.js:1097-1106 | the moves change exactly when the plan has a deposit for the month; at most one move is taken out and nothing is added |
| Savings.DepositMove | app.js:1090-1091 | the deposit recorded is the rate, for the plan and month, dated the first |
| Savings.DepositKeepsOnePerPlanMonth | app.js:1081-1095 | a deposit keeps at most one deposit per plan and month |
| Savings.DepositAddsRate | app.js:1081-1095 | an accepted deposit adds exactly the rate to the month's deposits and to the plan's balance |
| Savings.UndoAfterDeposit | app.js:1081-1106 | undo right after an accepted deposit restores the list of moves |
| Savings.UndoRemovesFirstMatch | app.js:1097-1106 | undo splices out exactly the first matching deposit, keeps the rest in order, and changes nothing without a match |
| Savings.UndoClearsDeposit | app.js:1097-1106 | while the one-deposit invariant holds, undo leaves the plan no deposit for the month and keeps the invariant |
| Savings.PlansWithout | app.js:1173 | the kept plans are exactly those with another id |
| Savings.RatesWithout | app.js:1174 | the kept rates are exactly those of other plans |
| Savings.MovesWithout | app.js:1175 | the kept moves are exactly those of other plans |
| Savings.HardDeleteKeepsBalances | app.js:1175 | every other plan's balance is unchanged |
| Savings.RatesWithoutAppend | app.js:1174 | the rate filter distributes over concatenation |
| Savings.PlansWithoutAppend | app.js:1173 | the plan filter distributes over concatenation |
| Savings.MovesWithoutAppend | app.js:1175 | the move filter distributes over concatenation |
| Savings.HardDeleteKeepsRates | app.js:1174 | `getRate` gives every other plan the same rate as before, in every month |
| Savings.HardDeleteKeepsTotals | app.js:1173-1175 | the savings overview lists no total for the deleted plan, and shows every other plan's total as before |
| Savings.HardDeleteKeepsMoveOrder | app.js:1175 | every other plan's moves stay, in the same order, and none of the deleted plan's remain |
| Savings.HardDeleteKeepsRateOrder | app.js:1174 | every other plan's rates stay, in the same order, and none of the deleted plan's remain |
| Savings.OneDepositPrefix | app.js:1087-1088 | a prefix of a list with at most one deposit per plan and month has that property too |
| Savings.OneDepositLast | app.js:1087-1088 | under the invariant, the last move is no second deposit for any earlier deposit |
| Savings.OneDepositAppend | app.js:1087-1091 | appending a move that is no second deposit for any deposit of the list keeps the invariant |
| Savings.HardDeleteKeepsOneDeposit | app.js:1175 | the cascade keeps at most one deposit per plan and month |
| Maintenance.IndexOfId | app.js:449 | `findIndex` gives the first entry with the id, and -1 exactly when there is none |
| Maintenance.SumForMonthRemoveAt | app.js:449-450 | splicing out an entry takes its cents out of its own month's sum only |
| Maintenance.DeleteByIdSpec | app.js:449-450 | delete-by-id removes exactly the first entry with the id and takes its cents out of its month; an absent id changes nothing |
| Maintenance.DeleteById | app.js:449-450 | the list changes exactly when some entry has the id, and then loses exactly one entry; DeleteByIdSpec gives which one |
| Maintenance.TypeIndex | app.js:861 | the first type with the id, and -1 exactly when the list has none |
| Maintenance.UsedCountZero | app.js:781-784 | the use count is 0 exactly when no entry refers to the type |
| Maintenance.UsedCount | app.js:781-784 | the count is at most the number of entries |
| Maintenance.Retag | app.js:891-895 | the remap keeps the number of entries |
| Maintenance.RetagPrefix | app.js:891-895 | the remap of a prefix is the prefix of the remap |
| Maintenance.RetagCounts | app.js:891-895 | after the remap no entry refers to the old type, the target gains exactly its entries, and every other type keeps its count |
| Maintenance.RetagEffect | app.js:891-895 | the remap keeps the number of entries and every month's sum, re-points exactly the entries of the old type, and moves their count to the target |
| Maintenance.SumForMonthPointwise | app.js:163-171 | lists agreeing on every entry's month and cents have equal month sums |
| Maintenance.RetagKeepsSums | app.js:891-895 | the remap keeps every month's sum |
| Maintenance.Alternatives | app.js:871 | the alternatives are exactly the types of the list with another id: each one is such a type, and each such type is one |
| Maintenance.DefaultTarget | app.js:872 | the default target is a non-empty id of another type of the list; there is none exactly when there is no alternative or the first one has an empty id |
| Maintenance.AlternativesAppend | app.js:871 | the filter distributes over concatenation, so it keeps list order |
| Maintenance.AlternativesFirst | app.js:871-872 | the first alternative is the first type of the list whose id differs |
| Maintenance.DefaultTargetIsFirstOther | app.js:872 | the default target is the id of the first type with another id; there is none exactly when every type has the id or that first type's id is empty |
| Maintenance.KeptAfterRemove | app.js:897-898 | a type other than the deleted one stays in the list |
| Maintenance.UnusedDeleteResolves | app.js:860-862 | deleting an unused type leaves every reference resolving |
| Maintenance.RemapDeleteResolves | app.js:887-899 | remapping to another type of the list and deleting leaves every reference resolving |
| Maintenance.DefaultTargetResolves | app.js:887-899 | remapping to the default target leaves every reference resolving |
| Maintenance.RemoveAtResolves | app.js:612-613 | deleting an entry keeps every other reference resolving |
| Maintenance.DeleteTypeOutcome | app.js:855-905 | not found exactly when no type has the id; spliced out at once exactly when it is unused; stopped exactly when it is used, nothing is selected and there is no default target; remapped otherwise, to the selected id when one is selected and to the default target when not |
| Maintenance.DeleteTypeResult | app.js:855-905 | the number of entries is kept, and the type list either stays or loses one type |
| Maintenance.DeleteTypeEffect | app.js:855-905 | an unknown type changes nothing, and so does a used type without a target. A delete that goes through removes exactly that type, so the list shrinks by one. It then leaves no entry on that type and keeps the number of entries and every month's sum. An unused delete touches no entry. A remap re-points exactly the entries of the type to another type, leaves the other entries as they were, adds their count to the target and keeps every other type's count |
| Maintenance.DeleteTypeResolves | app.js:855-905 | after a type deletion through the selection, every entry still refers to a type in the list |
| Escape.ReplaceAll | app.js:1205 | defined as replacing each occurrence of one character; ReplaceAllAppend, ReplaceAllAbsent and ReplaceAllOne state how it behaves |
| Escape.EscapeHtml | app.js:1203-1210 | defined as the chain of five replacements; EscapeHtmlIsEscapeChars, EscapeHtmlSafe, EscapeHtmlAmpersands and UnescapeEscape state what it achieves |
| Escape.EscapeAttr | app.js:1211-1213 | defined as `escapeHtml` with line feeds made spaces; EscapeAttrSafe states what it achieves |
| Escape.ReplaceAllAppend | app.js:1205 | `replaceAll` distributes over concatenation |
| Escape.EscapeHtmlAppend | app.js:1203-1210 | `escapeHtml` distributes over concatenation |
| Escape.ReplaceAllAbsent | app.js:1205 | a string without the pattern is left as it is |
| Escape.ReplaceAllOne | app.js:1205 | a single character is replaced exactly when it is the pattern |
| Escape.EscapeRestOne | app.js:1206-1209 | the last four replacements turn any character but '&' into its entity |
| Escape.EscapeHtmlOne | app.js:1203-1210 | one character escapes to its entity, because later steps never touch what the '&' step produced |
| Escape.EscapeHtmlIsEscapeChars | app.js:1203-1210 | the chain of five replacements equals replacing each character by its entity in one pass |
| Escape.EscapeCharsSafe | app.js:1203-1210 | escaped text holds no `<`, `>`, `"` or `'` |
| Escape.EscapeHtmlSafe | app.js:1203-1210 | `escapeHtml` output holds no `<`, `>`, `"` or `'` |
| Escape.EntityStarts | app.js:1203-1210 | a special character's entity starts with one of the five entities |
| Escape.EscapeCharsAmpersands | app.js:1203-1210 | every '&' of escaped text starts one of the five entities |
| Escape.EscapeHtmlAmpersands | app.js:1203-1210 | every '&' in `escapeHtml` output starts one of the five entities |
| Escape.EscapeCharsPlain | app.js:1203-1210 | text without special characters is escaped to itself |
| Escape.EscapeHtmlPlain | app.js:1203-1210 | `escapeHtml` returns text without special characters unchanged |
| Escape.UnescapeEntity | app.js:1203-1210 | each entity decodes to its character, whatever follows |
| Escape.UnescapeEscape | app.js:1203-1210 | decoding `escapeHtml` output gives the input back, so escaping loses nothing |
| Escape.ReplaceAllAvoids | app.js:1212 | a replacement whose text avoids a set of characters leaves none of them, if the pattern was the only one in the input |
| Escape.EscapeAttrSafe | app.js:1211-1213 | `escapeAttr` output holds no `<`, `>`, `"`, `'` or line feed |
| AppState.RetagAll | app.js:891-895 | the `forEach` remap loop produces the remapped entry list |
| AppState.DeleteTypeIn | app.js:855-905 | the body of `deleteType` on one type list and its entries produces `DeleteTypeResult` |
| AppState.CopiedFixedResolves | app.js:225-234 | copies keep their type, so they resolve wherever the originals did |
| AppState.Budget.constructor | app.js:51-84 | the initial state: every month is today's, the default types and categories, every other list empty |
| AppState.Budget.NextUid | app.js:46-48 | each id takes the next token, and one token is drawn |
| AppState.Budget.EnsureRatesCopiedForMonth | app.js:192-215 | with an active plan's rate for the month nothing changes; otherwise exactly the copied rates are appended, and nothing else changes |
| AppState.Budget.CopyRates | app.js:201-213 | the loop appends exactly the copied rates and draws one token per copy |
| AppState.Budget.EnsureFixedCopiedForMonth | app.js:216-237 | returns true exactly when the month has no fixed cost and last month has some. Then exactly the copies are appended and nothing existing changes; otherwise nothing changes. References keep resolving |
| AppState.Budget.CopyFixedItems | app.js:225-234 | the loop appends exactly one copy per item of last month, in order, and draws one token per copy |
| AppState.Budget.DoDeposit | app.js:1081-1095 | the outcome is the deposit decision and the moves become AfterDeposit's list: unchanged when refused, else one deposit of the rate dated the first of the month appended; the one-deposit invariant is kept |
| AppState.Budget.UndoDeposit | app.js:1097-1106 | the moves become the list after the undo; with the invariant, the plan has no deposit left for the month |
| AppState.Budget.DeleteIncome | app.js:449-450 | the incomes become the list after delete-by-id |
| AppState.Budget.DeleteFixedCost | app.js:612-613 | the fixed costs become the list after delete-by-id, and references keep resolving |
| AppState.Budget.DeleteExpense | app.js:766-767 | the expenses become the list after delete-by-id, and references keep resolving |
| AppState.Budget.DeleteType | app.js:855-905 | the chosen kind's type list and entries become `DeleteTypeResult`; the other kind is untouched; references keep resolving |
| AppState.Budget.HardDeletePlan | app.js:1154-1175 | an unknown plan changes nothing. Otherwise the plan, its rates and its moves are filtered out and the one-deposit invariant is kept |

## Left out

- The clock: `todayYMD` and `ymNow` (app.js:15-24) read the local date. The constructor takes today's date as a parameter.
- Randomness: `uid` (app.js:46-48) uses `Math.random`. Its tokens are a stream fixed at construction; which ids are distinct is not modelled.
- Locale formatting: `centsToEUR` and `monthLabelDE` (app.js:25-29, 36-38).
- `eurToCents` (app.js:39-45), because it goes through JavaScript `Number` and floating-point `Math.round(n * 100)`. Its normalisation removes every '.', so "12.34" becomes 1234 euros, contrary to its comment.
- Persistence: `loadState`, `saveState` and `resetAll` (app.js:86-107) with `localStorage` and JSON. `saveState` calls are no-ops on the modelled state.
- DOM, modal, toast and routing code, the render functions, and the forms that add or edit entries, types and plans. They are UI plumbing around the modelled state updates.
- Confirmation steps: cancelling a modal, and typing "LÖSCHEN" before a plan's hard delete (app.js:1170-1171). `HardDeletePlan` models the confirmed action.
- Months.AddMonths: JavaScript `Number` is modelled for plain digit fields only; the empty field reads as 0, and anything else reads as NaN and prints "NaN-NaN". Whitespace, signs, decimals, exponents and hexadecimal forms are not modelled. Neither are dates beyond the `Date` range, where the source prints "NaN-NaN".
- Months.MonthIndex: its own contract only bounds the index from below; Months.MonthIndexOfJoin and Months.WellFormedMonthIndex state the exact reading.
- Months.AddMonthsRoundTrip: proved only when the month in between lies in a year of at least 100. The `Date` constructor reads a year from 0 to 99 as 1900 + year, so a round trip through such a year does not return.
- CopyForward.CopiedRatesAtMostOne: assumes distinct plan ids, which the random `uid` makes likely but does not guarantee.
- Maintenance.DeleteTypeResolves and AppState.Budget.DeleteType: reference resolution is stated for selection values the "move to" list offers (the other types' ids, or "" when it offers nothing); the selection value is a parameter.
- AppState.Budget.DeleteType: the source mutates each entry object's `typeId` or `categoryId` in place. Records are values here, so the entry list is replaced by its remapped copy and object aliasing is not modelled.
- JavaScript numbers: cents are unbounded integers, with no 2^53 limit.
- `escapeHtml` applies `String(s)` to its argument; the model takes a string.
