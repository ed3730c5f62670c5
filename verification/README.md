# Split Bill — a verified model of the bill-splitting computation

Split Bill is a small Streamlit app. It takes a restaurant receipt and
works out what each diner owes: line items (unit price × quantity), each
charged to some of the diners, plus a discount, a service charge and a tax
(PPN) set in the sidebar. This project models the computation behind the
page in Dafny and proves properties of it. The page layout is not modelled.

The model is split into these modules:

- `Currency` (`currency.dfy`): the `rupiah` formatter. An amount is
  truncated to an integer, its digits are grouped in threes with `.`, and
  `Rp ` is put in front. The module also has a strict parser, and proves
  that the parser and the formatter are exact inverses.
- `Rounding` (`rounding.dfy`): `round_rule`.
  - Rule "none" uses `Decimal` quantization with `ROUND_HALF_UP`, which
    rounds half away from zero.
  - Rules "100" and "1000" compute `step * round(amount / step)`. Python's
    `round` sends ties to the even integer.
  - `RoundHalfAway`, `RoundHalfEven` and `RoundRule` are each pinned down
    by a "nearest integer (or step multiple), ties go this way"
    characterisation, proved in both directions (`RoundHalfAwayIff`,
    `RoundHalfEvenIff`, `RoundRuleIff`).
- `Bill` (`bill.dfy`):
  - line items, the settings and the totals: subtotal, discount, the
    discounted subtotal (clamped at zero), service on the original
    subtotal, tax on one of two bases, and the grand total;
  - the ready gate, which decides whether the per-person breakdown is
    shown.
- `Allocation` (`allocation.dfy`): the per-person engine.
  - raw shares, either an equal split or each line split evenly among the
    people it is charged to;
  - the proportional overlay of service, tax and discount;
  - per-person rounding;
  - the rounding difference against the rounded grand total. When some
    lines are charged to nobody, this difference also contains their total;
  - the single "top spender".

  Python keeps the shares in a dict keyed by name. The model assumes the
  names are distinct (nothing on the page enforces it), so the dict becomes
  a sequence aligned with the list of people.
- `Seqs` (`seqs.dfy`) and `Wrappers` (`wrappers.dfy`): sums over
  sequences, counting facts, and `Option`.

Money is modelled as exact `real`. Rounded and formatted amounts are `int`.

The main results:

- Raw shares add up to the total of the lines charged to somebody, or to
  the subtotal in equal mode.
- The overlay multiplies every raw share by one common factor.
- The adjusted shares fall short of the grand total by exactly the lines
  charged to nobody. When every line is charged to somebody they add up to
  the grand total, and the reported difference is then at most
  (n·step + 1)/2 in size.
- The top spender is named exactly when one person has the strictly
  largest rounded share.

## Model

| member | source | states |
|---|---|---|
| Currency.RupiahShape | code.py:21-23 | The text after `Rp ` starts with `-` exactly when the amount is negative. The rest is well grouped: a first group of one to three digits, then `.`-separated groups of three. Deleting the dots gives Python's `str` of the amount. |
| Currency.Rupiah | code.py:21-23 | Every formatted amount begins with `Rp ` and has something after it. |
| Currency.FormatInt | code.py:21-22 | `f"{n:,}"` with dots: a minus sign for negative amounts, then the grouped digits of the magnitude. Its contract is carried by `Currency.RupiahShape` and `Currency.ParseSignedFormatted`. |
| Currency.Group | code.py:22 | Inserts a `.` before every third digit from the right. `Currency.GroupWellGrouped`, `Currency.UngroupGroup` and `Currency.GroupUngroup` state its shape and inverse. |
| Currency.RupiahOfReal | code.py:21-23 | `rupiah` of a fractional amount formats its truncation toward zero. `Currency.RupiahOfRealReadsBack` states that the parser reads back that truncation. |
| Currency.ParseRupiahIff | code.py:21-23 | A string parses to `n` if and only if it is exactly `rupiah(n)`. So the formatter is injective and the parser is its inverse. |
| Currency.ParseSignedFormatted | code.py:21-23 | The signed, dot-grouped amount without the currency prefix reads back as the integer it formats, with the minus sign only on negative amounts. |
| Currency.ParseFormatted | code.py:21-23 | Parsing `rupiah(n)` gives back `n` for every integer, including zero and negative amounts. |
| Currency.ParsedIsFormatted | code.py:21-23 | Every string the parser accepts is the formatting of the amount it returns. |
| Currency.RupiahInjective | code.py:21-23 | Two amounts that format to the same string are equal. |
| Currency.TruncateToInt | code.py:22 | `int(x)` truncates toward zero. For x ≥ 0 the result k satisfies 0 ≤ k ≤ x < k+1. For x < 0 it satisfies k ≤ 0 and k−1 < x ≤ k. |
| Currency.RupiahOfRealReadsBack | code.py:21-23 | Formatting a fractional amount prints its truncation toward zero, and the parser reads that integer back. |
| Currency.GroupUngroup | code.py:22 | A well-grouped string is the three-digit grouping of its own digits. |
| Currency.UngroupGroup | code.py:22 | Removing the separators from a grouped digit string gives back the digits. |
| Currency.WellGroupedSnoc | code.py:22 | A well-grouped head, a dot and three digits form a well-grouped string. It is the converse of splitting off the last group. |
| Currency.GroupWellGrouped | code.py:22 | Grouping a non-empty digit string gives the well-grouped shape: every fourth character from the right is `.`, all the others are digits. |
| Currency.ValueOfDigits | code.py:22 | The decimal digits of `n` denote `n`. |
| Currency.Digits | code.py:22 | The digits of a number are a non-empty digit string with no leading zero, and they start with `0` only for zero. |
| Currency.DigitsOfValue | code.py:22 | A digit string without a leading zero is the decimal spelling of the number it denotes. |
| Currency.ParseMagnitudeIff | code.py:22 | The unsigned parser accepts `m` with value `v` exactly when `m` is the grouping of the digits of `v`. |
| Currency.RupiahExample | code.py:21-23 | `rupiah(1234567)` is `Rp 1.234.567`, `rupiah(-1000)` is `Rp -1.000` and `rupiah(0)` is `Rp 0`. |
| Rounding.RoundHalfAway | code.py:26-27 | Rule "none" returns an integer within 1/2 of the amount. On a tie it returns the integer farther from zero. |
| Rounding.RoundHalfAwayIff | code.py:26-27 | `RoundHalfAway(x) == k` if and only if k is the nearest integer to x, with ties away from zero. |
| Rounding.RoundHalfEven | code.py:29 | Python's `round` returns an integer within 1/2 of its argument. On a tie it returns the even one. |
| Rounding.RoundHalfEvenIff | code.py:29 | `RoundHalfEven(x) == k` if and only if k is the nearest integer to x, with ties to even. |
| Rounding.RoundToMultiple | code.py:28-29 | For step 100 or 1000 the result is a multiple of the step within step/2 of the amount. On a tie it is the even multiple. |
| Rounding.RoundRule | code.py:25-29 | For every rule the result is a multiple of the rule's step, within half a step of the amount. Rule "none" breaks ties away from zero; the step rules break ties to the even multiple. |
| Rounding.RoundRuleIff | code.py:25-29 | `round_rule(x, rule) == r` if and only if r is a multiple of the rule's step within half a step of x, with ties farther from zero for "none" and to the even multiple for "100" and "1000". So the rule is fully determined by that description. |
| Rounding.RoundToMultipleUnique | code.py:28-29 | Any multiple of 100 or 1000 within half a step of x, taking the even multiple on a tie, is `step * round(x / step)`. |
| Rounding.RoundRuleOdd | code.py:25-29 | Every rule rounds −x to minus what it rounds x to. |
| Rounding.RoundToMultipleOdd | code.py:28-29 | `step * round(-x / step)` is minus `step * round(x / step)`. |
| Rounding.RoundRuleFixesMultiples | code.py:25-29 | An amount that is already a multiple of the step is returned unchanged. |
| Rounding.RoundRuleTies | code.py:25-29 | 250→200, 350→400, −150→−200 and 2500→2000 under the step rules; 2.5→3 and −2.5→−3 under rule "none". |
| Bill.ComputeTotals | code.py:189-204 | The subtotal is the sum of the line totals, and the discounted subtotal is never negative. Within the discount bound the discounted subtotal is the subtotal minus the discount. The grand total is discounted subtotal plus service plus tax. |
| Bill.LineTotal | code.py:176 | `line_total = unit_price * qty`. Its sums are stated by `Bill.SubtotalSplits` and `Bill.SubtotalNonNegative`. |
| Bill.Subtotal | code.py:189 | The sum of the line totals, taken over the lines in order. `Bill.SubtotalSplits` splits it into assigned and unassigned lines, and `Bill.SubtotalNonNegative` bounds it. |
| Bill.TotalsOfZeroSubtotal | code.py:189-204 | A subtotal of zero makes the discount, discounted subtotal, service, tax and grand total all zero. |
| Bill.TotalsNonNegative | code.py:189-204 | Within the widget bounds, discount, service and tax are non-negative. The discount does not exceed the subtotal, and the grand total is at least the discounted subtotal. |
| Bill.ServiceIgnoresDiscount | code.py:196 | Service is charged on the original subtotal: settings that differ only in discount, tax or tax base give the same service charge. |
| Bill.TaxBaseDifference | code.py:199-202 | Taxing subtotal plus service instead of the subtotal alone adds exactly the tax rate times the service charge. |
| Bill.GrandTotalClosedForm | code.py:192-204 | Within the widget bounds, the grand total is S(1−d)(1+t) + S·s when only the discounted subtotal is taxed, and S(1−d+s)(1+t) when service is taxed too. |
| Bill.SubtotalSplits | code.py:176-189 | The subtotal is the total of the lines charged to somebody plus the total of the lines charged to nobody. |
| Bill.SubtotalNonNegative | code.py:170-189 | With non-negative unit prices and quantities of at least one, the subtotal, the assigned total and the unassigned total are all non-negative. |
| Bill.StripNonBlank | code.py:223 | A name survives `strip()` exactly when it has a character that `isspace()` rejects. |
| Bill.TrimStart | code.py:223 | Stripping the front removes a prefix made only of whitespace and leaves either nothing or a non-whitespace first character. |
| Bill.TrimEnd | code.py:223 | Stripping the back removes a suffix made only of whitespace and leaves either nothing or a non-whitespace last character. |
| Bill.Strip | code.py:223 | `str.strip()` with Python's whitespace set. `Bill.StripNonBlank` states when the result is non-empty. |
| Bill.HasNames | code.py:223 | `all(p.strip() for p in people)`: every name has a non-whitespace character (by `Bill.StripNonBlank`). |
| Bill.HasAssignments | code.py:224 | Some line has a positive total and at least one assignee. |
| Bill.Ready | code.py:225 | Positive subtotal, all names non-blank and some assigned line. `Bill.ReadyReduces` and `Allocation.SplitBill` state its consequences. |
| Bill.ReadyReduces | code.py:223-225 | With non-negative prices and quantities of at least one, `ready` holds if and only if every name is non-blank and some positive line is charged to somebody. The assigned total is then positive. |
| Allocation.IndexOf | code.py:245 | The dict lookup `per_person[p]` finds a position of `p` in the list of people, which is in range and holds `p`. |
| Allocation.ComputeRawShares | code.py:233-245 | The program's loops compute exactly the functional raw shares, in both split modes. |
| Allocation.SplitEqually | code.py:235-238 | The equal-split loop gives every person `subtotal / max(n, 1)`. |
| Allocation.EqualShares | code.py:235-238 | Every person gets `subtotal / max(n, 1)`. `Allocation.EqualSharesSum` states that they add up to the subtotal. |
| Allocation.ItemContribution | code.py:240-245 | What one line adds to each person: its total split evenly among its assignees, or nothing when unassigned. `Allocation.ItemContributionSum` states the line is handed out exactly. |
| Allocation.RawShares | code.py:233-245 | The raw shares for either split mode. `Allocation.ComputeRawShares` states the loops compute them, and `Allocation.RawSharesSum` their total. |
| Allocation.AddItem | code.py:240-245 | One pass of the per-item loop adds `line_total / len(assigned)` to each assignee and nothing to anybody else. A line charged to nobody is skipped. |
| Allocation.ItemContributionSum | code.py:240-245 | A line charged to somebody hands out exactly its line total across its assignees. A line charged to nobody hands out nothing. |
| Allocation.PerItemSharesSum | code.py:240-245 | Per-item raw shares sum to the total of the lines charged to somebody. |
| Allocation.EqualSharesSum | code.py:235-238 | Equal-split raw shares sum to the subtotal. |
| Allocation.PerItemShares | code.py:240-245 | The per-item accumulation has one share per person. |
| Allocation.RawSharesSum | code.py:233-245 | Raw shares sum to the assigned total in per-item mode and to the subtotal in equal mode. |
| Allocation.RawSharesNonNegative | code.py:233-245 | With non-negative prices every raw share is non-negative. |
| Allocation.PerItemSharesNonNegative | code.py:240-245 | With non-negative prices every per-item share is non-negative. |
| Allocation.OverlayProportional | code.py:248-253 | Every adjusted share is its raw share times the common factor `1 + (service + tax − discount) / pre_alloc_total`, so every share keeps its weight. |
| Allocation.OverlaySum | code.py:248-253 | When the raw shares do not sum to zero, the adjusted shares sum to their total plus service plus tax minus discount. When they sum to zero, the adjusted shares do too. |
| Allocation.OverlayKeepsZero | code.py:248-253 | Non-negative raw shares that sum to zero all stay zero after the overlay. This is the `or 1` fallback. |
| Allocation.PreAllocTotal | code.py:248 | `sum(per_person.values()) or 1`: the raw total, or 1 when it is zero. Its use is stated by `Allocation.OverlayProportional` and `Allocation.OverlaySum`. |
| Allocation.Overlay | code.py:248-253 | The overlay keeps one adjusted share per person. |
| Allocation.RoundedSumNear | code.py:257-258 | The sum of the rounded shares is within half a step per person of the sum of the adjusted shares. |
| Allocation.RoundShares | code.py:257 | There is one rounded share per person; each is a multiple of the rule's step within half a step of that person's adjusted share. |
| Allocation.SlackClosed | code.py:257-258 | Half a step per person, over n people, is n·step/2. |
| Allocation.RoundingDiffBound | code.py:257-272 | When the adjusted shares add up to the grand total, the difference `int(round(grand_total)) − sum_rounded` is at most half a step per person plus one half in size. |
| Allocation.RoundingDiff | code.py:272 | `int(round(grand_total)) - sum_rounded`. `Allocation.RoundingDiffBound` bounds it, and `Allocation.FullyAssignedBillBalances` bounds it for a balanced bill. |
| Allocation.MaxOf | code.py:260 | `max_value` bounds every rounded share and is attained by one of them. |
| Allocation.IndicesOf | code.py:261 | `leaders` lists, in increasing order, exactly the positions whose rounded share equals the maximum. |
| Allocation.TopSpender | code.py:260-266 | A person is highlighted only if their rounded share is strictly larger than everybody else's. If nobody is highlighted, nobody has such a share. |
| Allocation.TopSpenderIff | code.py:260-266 | Person i is highlighted if and only if i has the unique maximum rounded share. |
| Allocation.TieSuppressesTopSpender | code.py:260-266 | Two people sharing the maximum suppress the highlight for everybody. |
| Allocation.Allocate | code.py:233-272 | The breakdown has one raw, adjusted and rounded share per person. Every rounded share is a multiple of the rule's step, and the top spender is the holder of the unique maximum if there is one. |
| Allocation.SplitBill | code.py:223-228 | Totals are always computed. The per-person breakdown exists exactly when the ready gate is open, and it then covers at least one person. |
| Allocation.ReadyHasPeople | code.py:223-225 | When the gate is open, somebody is charged for a line, so the list of people is non-empty and `max` is defined. |
| Allocation.AdjustedSharesShortfall | code.py:189-253 | Once the gate is open, grand total minus the sum of the adjusted shares is the total of the lines charged to nobody. In equal mode it is zero. |
| Allocation.FullyAssignedBillBalances | code.py:189-272 | When every line is charged to somebody, or the split is equal, the adjusted shares add up to the grand total. The reported difference is then at most (n·step + 1)/2 in size. |
| Allocation.UnassignedLinesInDiff | code.py:224-275 | In per-item mode the gate opens when only some lines are charged to somebody. The reported "rounding difference" then also contains the total of the lines charged to nobody: it is within (n·step + 1)/2 of that total (`DiffNear`). For example, 10000 charged to one diner and 5000 to nobody gives a difference of 5000 with no rounding. |
| Allocation.TwoDinersExample | code.py:189-272 | One 30000 line bought twice and shared by two, with 10% tax and 5% service: grand total 69000, each pays 34500, the difference is 0, and the tie suppresses the top spender. |

## Left out

- The Streamlit page is not modelled: CSS, page configuration, sidebar and input widgets, columns, expanders, metrics, captions and info boxes. Widget values are parameters of the model. The bounds the widgets enforce are the predicates `ValidItem`, `ValidConfig` and the assignee part of `ValidPeople`. The distinct names that `ValidPeople` also requires are an assumption of the model (see below).
- Floating point is not modelled. Amounts are exact reals, so binary rounding error is outside the model. This includes the exact value `Decimal(float)` sees and the float result of `amount / step`.
- The `int(...)` truncations used only when displaying service, tax and discount are not modelled. Their formatter is modelled (`Currency.RupiahOfReal`, `Currency.TruncateToInt`).
- The rendering of the breakdown, the bold highlight markup and the rounding-difference notice (shown only when the difference is non-zero) are presentation and are not modelled. The difference itself is (`Allocation.RoundingDiff`).
- Duplicate names are not modelled. Each name is a free text field, so two diners can share a name; Python's dict would then merge their shares. The model assumes distinct names (`ValidPeople`). Only the assignee conditions in `ValidPeople` come from the page: the multi-select offers the names of `people`, so each line is charged to distinct people from the list.
- Rounding.RoundHalfAway: `Decimal.quantize` raises `InvalidOperation` when the rounded value needs more than the default context's 28 digits. The unit-price field has no maximum, so a share of 10^28 or more is reachable. The model returns the rounded integer for every amount and does not model that exception. `Rounding.RoundRule` inherits this through rule "none".
- Rounding.RoundRule: the rule is a three-value datatype. In Python any string other than "none" and "100" would mean step 1000, but the selector offers only these three.
- Allocation.Allocate: requires at least one person. Python's `max` raises on an empty dict. The number-of-people widget has a minimum of one, and `Allocation.ReadyHasPeople` shows that an open gate implies somebody to pay.
- Allocation.RoundingDiffBound: the bound is stated as `Slack(n) + 1/2` (half a step per person plus one half). `Allocation.SlackClosed` gives `Slack(n)` in closed form as n·step/2.
