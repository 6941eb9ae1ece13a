# Contract numbering, branch numbering and plan checks of the order system

This Dafny project models the part of the order-management application that
has real invariants. The model covers:

- **Contract numbering** (`Order.save`). An order saved with a blank
  `issue_no` gets the code `YY NNNN 0`. `YY` is `str(year)[2:]`. `NNNN` is one
  more than the sequence (characters 2..6) of the greatest code of that year,
  zero-padded to four digits. The first code of a year is `YY00010`. A code
  that is given is kept as it is. The order is then written into the order
  table under its code.
- **Branch numbering** (`order_branch`). The order `pk` is cloned under its
  first six characters followed by the branch digit of the greatest code
  sharing those six characters, plus one. The clone gets `issue_date` set to
  today. When the digit would pass 9, nothing is created.
- **The day's orders** (`order_list`). These are the orders whose `issue_date`
  is today, in ascending code order.
- **The plan table** (`OrderPlan`). Its rows are unique on
  (`plan_date`, `section`, `row_index`). `check_over_qty` tells whether the
  summed `plan_qty` of an order's plans exceeds the order's `qty`.

Modules:

- `Wrappers` holds the `Option` and `Result` values that model NULL columns
  and the error paths.
- `Lex` defines Python's string order (`Below`) and `str.startswith`. It also
  holds the two queries the order table is read with: `SortedCodes`
  (`order_by('issue_no')`) and `Greatest` (`.order_by('issue_no').last()`).
- `Digits` models `str(n)`, `int(s)` and `s.zfill(w)`.
- `Orders` holds the `Order` record, `NextIssueNo` and the class
  `OrderStore`. Its method `Save` assigns `issue_no` and writes the row, as
  the source does.
- `Views` holds `NextBranchNo`, the method `OrderBranch` over an
  `OrderStore`, and `TodaysOrders`.
- `Plans` holds the `OrderPlan` rows, the class `PlanTable` with the unique
  key, and `CheckOverQty`.

The clock is a parameter. `Save` takes the current `year`, and the views take
`today`. The order table is a map from code to order, and each order is
stored under its own `issue_no` (`KeysMatch`). Floating-point columns are
reals.

Observed behaviour at sequence 9999: `zfill(4)` does not cut `"10000"`, so
the assigned code has eight characters, one more than `max_length=7`. That
code sorts below the year's greatest code `YY9999B`. The next blank save is
therefore given the same code again, and Django's save of an existing
primary key overwrites that order. `IssueNoOverflow` states this as the code
does it.

Two points where the model follows the code rather than what one might expect:

- The code takes the lexicographically greatest code of the year and parses
  its characters 2..6. It does not take the numerically greatest sequence.
  The two agree on well-formed seven-digit codes (`SequenceMonotone`,
  `Digits.ParseOrder`).
- When branching is exhausted, the view just redirects to the list. The
  model returns `BranchesExhausted` and leaves the table unchanged.

## Model

| member | source | states |
|---|---|---|
| `Orders.NextIssueNo` | orders/models.py:53-67 | A successful code starts with the year prefix and ends with branch digit '0'. When no stored code has the prefix, the code is prefix + "0001" + "0", whatever earlier years reached. It fails (ValueError of `int`) exactly when the year has codes and characters 2..6 of the greatest one are empty or not all ASCII digits, and the error names that greatest code. |
| `Orders.YearPrefix` | orders/models.py:55 | `str(year)[2:]`. It has no ensures of its own. `YearPrefixShape` states its shape for four-digit years. |
| `Orders.Family` | orders/models.py:57 | `filter(issue_no__startswith=prefix)`, also used at orders/views.py:47: the set of the table's codes that start with the prefix. It has no ensures of its own. `Views.Siblings` and `Orders.IssueNoFresh` state what it holds. |
| `Orders.YearPrefixShape` | orders/models.py:55 | For a four-digit year, `str(year)[2:]` is two ASCII digits. |
| `Orders.SequenceMonotone` | orders/models.py:57-61 | Among well-formed codes of one year, a code that sorts below another has a sequence no larger than the other's, so the `order_by('issue_no')` maximum holds the maximum sequence. |
| `Orders.IssueNoSequence` | orders/models.py:57-62 | Suppose the year has codes, all well-formed and below sequence 9999. Then the assigned code is well-formed and its sequence is 1 + the sequence of the greatest code of the year. It also sorts above that code. |
| `Orders.FirstIssueNo` | orders/models.py:63-67 | For a four-digit year with no code yet, the assigned code prefix + "0001" + "0" is seven ASCII digits and is not in the table. |
| `Orders.IssueNoFresh` | orders/models.py:55-67 | Suppose every code of the year is well-formed and below sequence 9999. Then the assigned code has 7 characters and sorts strictly above every code of the year. Its sequence exceeds each of theirs. It is not in the table, so saving never overwrites an order. |
| `Orders.ConsecutiveIssueNos` | orders/models.py:57-67 | Two blank saves in one year get consecutive sequences, and the second code sorts above the first. |
| `Orders.OverflowCode` | orders/models.py:61-67 | When the greatest code of the year has sequence 9999, the assigned code is prefix + "10000" + "0", because `zfill` does not truncate. |
| `Orders.IssueNoOverflow` | orders/models.py:57-67 | At sequence 9999 the code has 8 characters, past `max_length=7` (orders/models.py:21). Storing it and saving again assigns the same code once more. |
| `Orders.OrderStore.Save` | orders/models.py:52-68 | A non-blank `issue_no` is stored exactly under that code. A blank one is stored under `NextIssueNo` of the table's codes. On ValueError nothing is written. Every other stored order is unchanged. Under the well-formedness conditions of `IssueNoFresh` the code is new to the table. |
| `Lex.Below` | orders/models.py:57 | Python's `str` order behind `order_by('issue_no')`. It has no ensures of its own. It is described by `BelowProperPrefix`, `BelowIrreflexive`, `BelowAsymmetric`, `BelowTransitive` and `BelowTotal`. |
| `Lex.BelowProperPrefix` | orders/models.py:57 | In Python's `str` order a proper prefix sorts before the longer string. |
| `Lex.StartsWith` | orders/views.py:47 | The `issue_no__startswith` lookup. It has no ensures of its own. `Views.Take` and `Views.Siblings` state what it selects for branching, and `Orders.IssueNoFresh` states it for the year's codes. |
| `Lex.Slice` | orders/models.py:61 | The slice `[2:6]`: inside the string it is the substring, and past the end it is empty. |
| `Lex.SortedCodes` | orders/views.py:11 | `order_by('issue_no')`: lists every code of the set exactly once, each strictly below the next. |
| `Lex.Greatest` | orders/models.py:57 | `.order_by('issue_no').last()`: a member of the set that sorts above every other member. |
| `Lex.GreatestIs` | orders/views.py:47 | A member above all others is the one `.last()` returns. |
| `Digits.Parse` | orders/models.py:61 | `int(s)` on ASCII digits, as used at orders/models.py:61 and orders/views.py:48. It has no ensures of its own. Its meaning is fixed by `Decimal`'s round trip, `ParseBound`, `ParseOrder` and `ZFillValue`. |
| `Digits.ParseBound` | orders/models.py:61 | A k-digit string reads below 10^k, so a four-character sequence is at most 9999. |
| `Digits.ZFill` | orders/models.py:62 | `.zfill(4)`: the string left-padded with '0' to the width, ending with the original string, and never cut. |
| `Digits.Decimal` | orders/models.py:62 | `str(n)` is a non-empty ASCII digit string that `int` reads back as `n`. |
| `Digits.ZFillValue` | orders/models.py:62 | `zfill` pads with zeros and keeps the value `int` reads. |
| `Digits.DecimalFits` | orders/models.py:62 | A number below 10^k has at most k digits, so `zfill(4)` yields exactly four digits for sequences up to 9999. |
| `Digits.ParseOrder` | orders/models.py:61 | On digit strings of equal length, Python's string order agrees with the order of their `int` values, and equal values mean equal strings. |
| `Views.NextBranchNo` | orders/views.py:45-54 | `NotFound` exactly when the parent is not in the table. `NoBranchDigit` (IndexError) exactly when the greatest sibling has no seventh character. `BranchDigitNotNumeric` (ValueError) exactly when that character is not an ASCII digit. `BranchesExhausted` exactly when it is '9'. Otherwise the branch succeeds, and its code is the parent's first six characters plus one more character. |
| `Views.BranchSucceeds` | orders/views.py:46-54 | In a family of well-formed codes, branching succeeds exactly when the greatest sibling's branch digit is not 9. |
| `Views.Take` | orders/views.py:46 | `[:6]`: a prefix of the code, six characters long or the whole shorter code. |
| `Views.Siblings` | orders/views.py:46-47 | The codes sharing the parent's six-character prefix include the parent, so the `.last()` of line 47 is never None. |
| `Views.BranchFresh` | orders/views.py:46-54 | Take a parent of at least six characters whose branch succeeds. The new code has 7 characters and the parent's prefix. Its digit is the greatest sibling's digit + 1. It sorts above every code sharing the prefix, is not in the table, and differs from the parent. |
| `Views.BranchIgnoresWhichSibling` | orders/views.py:46-48 | Branching any member of a family gives the same result: the digit comes from the greatest sibling, not from the parent. |
| `Views.BranchFromGreatestSibling` | orders/views.py:47-48 | Branching "2500011" while "2500013" exists gives "2500014". |
| `Views.BranchChain` | orders/views.py:47-56 | Once a branch is stored, the next branch of the family gets the following digit. After digit 9 the next attempt is refused. |
| `Views.FirstBranchIsOne` | orders/views.py:46-54 | The first branch of a well-formed contract without siblings gets branch digit 1. |
| `Views.OrderBranch` | orders/views.py:44-57 | The result is `NextBranchNo` of the table. On failure the table is unchanged. On success exactly one row is added under the new code: a copy of the parent with `issue_no` and `issue_date` (today) replaced. `Save` keeps the non-blank code. The parent row stays as it was, and for a parent of at least six characters the code is new. |
| `Views.TodaysOrders` | orders/views.py:10-11 | Returns exactly the stored orders whose `issue_date` is today, each as stored, in strictly ascending `issue_no` order. |
| `Plans.PlannedTotal` | orders/models.py:136 | `aggregate(Sum('plan_qty'))['plan_qty__sum'] or 0` over the plans of one order. It has no ensures of its own. It is described by `PlannedTotalAppend`, `PlannedTotalPermutation`, `PlannedTotalNone` and `PlannedTotalInsert`. |
| `Plans.PlannedTotalAppend` | orders/models.py:136 | The planned sum over two row lists together is the sum of their sums. |
| `Plans.PlannedTotalPermutation` | orders/models.py:136 | The planned sum depends only on the bag of rows, not on their order in the table. |
| `Plans.PlannedTotalNone` | orders/models.py:136 | With no linked row carrying a quantity, the sum reads as 0 (the `or 0`). |
| `Plans.PlannedTotalInsert` | orders/models.py:136 | A new row raises its own order's sum by its non-NULL `plan_qty`. It leaves every other order's sum unchanged. |
| `Plans.CheckOverQty` | orders/models.py:134-137 | Fails (AttributeError on a NULL order) exactly when the plan has no order. Otherwise it is true iff the summed non-NULL `plan_qty` of the plans linked to that order exceeds the order's `qty`. |
| `Plans.OverQtyPermutation` | orders/models.py:134-137 | The verdict is the same for any order of the table's rows. |
| `Plans.OverQtyOtherInsert` | orders/models.py:134-137 | The verdict is unchanged by a new plan of another order or a plan with NULL quantity. |
| `Plans.PlanTable.Insert` | orders/models.py:127-128 | A row whose (plan_date, section, row_index) is already taken is refused and the table is unchanged. Otherwise the row is appended. The table keeps at most one row per key. |

## Left out

- orders/middleware.py (session expiry read from the configuration table), orders/admin.py (admin registration), orders/forms.py (widgets; its only relevant fact is that `issue_no` is optional, so a blank code reaches `Order.save`) and orders/urls.py (routing) have no logic to model.
- The views `schedule_board`, `save_plan`, `get_plans`, `shipment_create` and `get_shipment_stats`, named in orders/urls.py, have no implementation in orders/views.py. Plan upsert, shipment statistics and the daily report are not part of this model.
- `order_create` and `order_edit` only hand a form to `Order.save`, which is modelled. `menu` only renders a page. Form validation, `render`, `redirect`, `login_required` and `get_object_or_404` become return values (`NotFound`, the result codes).
- The `Staff`, `User`, `Shipment`, `UnitPriceMaster` and `SystemConfig` models are field declarations with defaults and no behaviour. `coordinator` is a staff id.
- Clock reads (`datetime.now().year`, `timezone.now().date()`) are the parameters `year` and `today`.
- The read-the-maximum-then-write race between concurrent saves or branches is not modelled. Every operation runs alone.
- Floating-point rounding of `qty` and `plan_qty`: the sums are exact sums of reals.
- `Digits.Parse`: Python's `int` also accepts surrounding whitespace, a sign, underscores between digits and non-ASCII digits. The model treats every string that is not non-empty ASCII digits as a ValueError, and so does the branch digit check.
- Ordering uses Unicode code points. A database collation that orders codes differently is not modelled.
- `Plans.PlanTable.Insert`: only inserting a new plan is modelled. Updating or deleting an existing plan row, and the `SET_NULL` of plans when their order is deleted, are not modelled, because no code in the modelled files does either.
- `Plans.CheckOverQty`: it requires a linked order to be present in the order table. This is the foreign-key integrity the database keeps.
- `Views.TodaysOrders`: it requires every order to be stored under its own `issue_no`, as the primary key guarantees.
- `Orders.OrderStore.Save`: `max_length` is not enforced on save. Whether a database refuses the eight-character code of `IssueNoOverflow` depends on the backend.
- `Orders.IssueNoFresh`, `Orders.IssueNoSequence` and `Orders.ConsecutiveIssueNos` are proved for four-digit years and for tables whose codes of that year are seven ASCII digits. Hand-entered codes of another shape can make the greatest code's characters 2..6 unrelated to the largest sequence.
- `Views.BranchFresh` is proved for parents of at least six characters. For a shorter code the source builds a branch code from a shorter prefix, which can collide with a stored code.
