# Even-split percentage allocator

This project models `calculateEvenSplit` from the expense ledger's front-end utilities
(`gibson-next-app/src/lib/utils.ts`). When a receipt is split evenly, the receipt page
asks this function for one percentage per trip member. The function gives each member
the same share: 100% divided by the member count and truncated to two decimal places.
It adds the leftover from that truncation to the first member, so the list totals
exactly 100%. A member count of zero or less gives an empty list.

Percentages are modelled in exact integer hundredths of a percent, so 100% is
`Utils.Whole` = 10000. Truncating to two decimals is then integer division
(`10000 / n`). The leftover is `10000 - base * n`. The source computes the same
values with floating-point arithmetic: `Math.floor((100 / n) * 100) / 100` and
`100 - base * n`.

The model is one module, `Utils`, in `utils.dfy`. The source function is pure, so the
model uses functions and lemmas only. There is no class and no loop. Beside the
function, the ghost predicate `IsEvenSplit` defines an even split independently of
how it is computed: one entry per member, each entry after the first equal to the
truncated share, and a total of exactly 100%. `EvenSplitCharacterised` proves that,
for a positive count, a list satisfies this predicate exactly when it is the list
the function returns.

## Model

| member | source | states |
|---|---|---|
| `Utils.CalculateEvenSplit` | gibson-next-app/src/lib/utils.ts:29-41 | A count of zero or less gives `[]`. Otherwise the list has exactly memberCount entries. Every entry after the first is the truncated share `s` with `s*n <= 100% < (s+1)*n`. The first entry exceeds each other entry by at least 0 and by less than n hundredths of a percent. Every entry lies between 0 and the first entry, and the first entry is at most 100%. |
| `Utils.BasePercentage` | gibson-next-app/src/lib/utils.ts:32 | The base share is 100%/n truncated to hundredths. It is the largest `b` with `b*n <= 100%`, so `100% < (b+1)*n`. |
| `Utils.Remainder` | gibson-next-app/src/lib/utils.ts:33 | The truncation leftover, 100% minus n base shares, is non-negative and less than n hundredths of a percent (0.01% per member). |
| `Utils.SplitTotalsWhole` | gibson-next-app/src/lib/utils.ts:33-40 | For any count of 1 or more, the entries sum to exactly 100%, as the comment at line 35 promises. |
| `Utils.SingleMemberGetsWhole` | gibson-next-app/src/lib/utils.ts:32-40 | With one member the result is `[100%]`. |
| `Utils.DivisibleCountIsUniform` | gibson-next-app/src/lib/utils.ts:32-40 | When the count divides 10000 hundredths, every entry is the same share, 100%/n, because there is no remainder. |
| `Utils.MoreMembersThanHundredths` | gibson-next-app/src/lib/utils.ts:32-40 | With more than 10000 members, the truncated share is 0. The first member receives all 100% and every other entry is 0. |
| `Utils.TruncatedShareUnique` | gibson-next-app/src/lib/utils.ts:32 | Only one share satisfies `b*n <= 100% < (b+1)*n`, so the truncation inequalities fix the base share. |
| `Utils.EvenSplitCharacterised` | gibson-next-app/src/lib/utils.ts:29-41 | For n >= 1, a list is an even split exactly when it equals `CalculateEvenSplit(n)`. An even split has n entries, truncated shares after the first, and a total of 100%. The lemma proves both directions. |

## Left out

- Floating-point behaviour of `Math.floor((100 / n) * 100) / 100` and `100 - base * n` (utils.ts:32-33): the model uses exact integer hundredths of a percent, which is what the float expressions are meant to compute. The source computes `100 - base * n` and `percentage + remainder` in IEEE doubles, which can round. The model does not capture that rounding, so its sum is exactly 100% even where the source's may differ in the last bits.
- Non-integer and very large member counts: `memberCount` is a JavaScript `number`. A fractional or NaN count, or an integer count of 2^32 or more, passes the test at utils.ts:30 but makes `Array(memberCount)` at utils.ts:36 throw a `RangeError` in the source. The model takes an unbounded integer count and returns a list of that length instead. Every caller passes `members.length`, a valid array length, so no caller can reach these error paths.
- `cn`, `formatCurrency` and `formatDate` (utils.ts:5-26): thin wrappers over the `clsx`, `tailwind-merge` and `Intl` libraries. Those libraries are not part of this model.
- The API client and the authentication context: HTTP requests and session state. They are not part of this model.
- The pages and React components are out of scope for this model, including the parts that compute something:
  - `gibson-next-app/src/app/trips/[id]/receipts/[receiptId]/page.tsx:186-222` pairs `percentages[index]` from the allocator with each trip member.
  - `gibson-next-app/src/app/trips/[id]/receipts/[receiptId]/page.tsx:262-279` rejects a split unless its percentages add up to 100 within 0.1, for the whole receipt or for each line item.
  - `gibson-next-app/src/app/trips/[id]/receipts/[receiptId]/page.tsx:295` and `:316-333` turn percentages into amounts as `total_amount * percentage / 100`. For an itemized receipt they sum each member's `amount * quantity * percentage / 100` across the line items.
  - `gibson-next-app/src/app/trips/[id]/receipts/new/page.tsx:33` totals `amount * quantity` over a new receipt's line items.
- The API routes are out of scope for this model, including the two that compute something:
  - `gibson-next-app/src/app/api/trips/[tripId]/balances/route.ts:82-204` holds the balance aggregation and debt settlement, which run on the server behind the API client. The code folds receipts and settlements into per-member `{paid, owed, net}` totals, rounds them to cents, and runs the greedy matching from largest debtor to largest creditor.
  - `gibson-next-app/src/app/api/receipts/[receiptId]/split/route.ts:49-63` is a server-side copy of the even-split arithmetic. It differs in one case: for zero members it returns an HTTP 400 error instead of an empty list.
