# Rich validator leaderboard — Dafny model

A model of the core of the rich-validator web client. The client fetches one date range of validator
rewards for Kusama or Polkadot and folds the raw reward records into a leaderboard. Rewards of a
sub-account are grouped under their parent validator. Each entry is labelled by a resolved display name
and identity status. The list is sorted by total reward, and each amount is shown as a fixed-point
number.

The model has these modules:

- `Wrappers`: the optional values of the records (`Undefined` / `Defined`) and JavaScript truthiness of
  optional strings (`Truthy`: defined and non-empty).
- `Seqs`: `Array.prototype.find` and `Array.prototype.filter` as first-match lookup and order-keeping
  filtering over sequences.
- `Types`: the records (`Account`, `Identity`, `Reward`, `Data`, `Entry`, `Network`), the three-valued
  `IdentityStatus`, and the `KUSAMA` and `POLKADOT` profiles.
- `Numerals`: `BigInt.prototype.toString()` for non-negative values, and digit-string arithmetic.
- `Util`:
  - the JavaScript `substring` and `slice` index arithmetic (on code points, see "## Left out");
  - `truncateSS58Address` and `insertAtIndex`;
  - the formatter `formatNumber`, as the padding loop, the cut, the separator loop, and the join with the
    ticker. Its result is characterised against an independent reference: `Group3` groups a numeral in
    threes from the right.
- `Ranking`: the final `sort((a, b) => Number(b.total - a.total))`. It is modelled as a stable
  insertion sort. The specification is "sorted, a permutation, and every tie class in its original
  order".
- `Aggregator`: `processChartData`. `Plan` chooses the branch of the loop body for one reward, in the
  source's order: skip, merge into an entry with the same key, self-parent, distinct parent, plain
  insert. `Step` carries the chosen action out. `Fold` is the loop, and `ProcessChartData` runs the loop
  on the freshly reset list and then sorts.
- `Leaderboard`: the row selection of `displayEntries`. It covers the identity-only switch, the position
  numbers and which sub-rows are listed.

The address codec `getSS58Address(hex, prefix)` is a parameter (`AddressCodec`) of the aggregation. The
model assumes nothing about it.

Amounts are unbounded integers, as the source's `bigint`s are. The formatter takes a non-negative
amount and requires `formatDecimals <= decimals`. The source relies on both: every caller passes 2 with
the network's 12 or 10 decimals.

Three facts about the code are easy to get wrong:

- **Duplicate rewards.** Two rewards for the same validator without a parent link give one entry with
  total `a + b`, but its sub list holds only the second row: the merge at `src/client/client.ts:183-189`
  pushes the new row onto an empty `subs` and never records the first one. See
  `Aggregator.DuplicateRewardKeepsOneSub`.
- **Totals against sub-rows.** Because of that merge, a total only bounds the sum of its sub-rows:
  given non-negative amounts, the total is at least that sum (`Aggregator.FoldKeepsShape`). Equality
  holds for entries split or created with sub-rows (`Aggregator.ChildSplitsParent`,
  `Aggregator.ChildAfterParent`, `Aggregator.ParentAfterChild`).
- **Truncation.** `formatNumber` cuts digits and never rounds: `formatNumber(123456789012, 12, 2)` is
  `"0.12"` (`Util.FormatNumberExamples`).

## Model

| member | source | states |
|---|---|---|
| Types.NetworkProfiles | src/client/types.ts:41-55 | Kusama is `KSM` with SS58 prefix 2 and 12 decimals; Polkadot is `DOT` with prefix 0 and 10 decimals; both have at least the 2 decimals the leaderboard shows |
| Numerals.NatToDecimal | src/client/util.ts:25 | `toString()` of a non-negative amount is a canonical numeral: at least one digit, all digits, no leading zero unless it is `"0"` |
| Numerals.NatToDecimalValue | src/client/util.ts:25 | the numeral reads back as the amount it was made from |
| Numerals.DropDigitsDivides | src/client/util.ts:29-30 | cutting `m` trailing digits of an amount is integer division by `10^m` |
| Numerals.LowDigitsValue | src/client/util.ts:29-35 | the `k` digits kept after the decimal point denote the amount modulo `10^k` |
| Util.Substring | src/client/util.ts:16 | `substring` with indices in order and in range is the slice between them; the result is never longer than the string |
| Util.TruncateSS58Address | src/client/util.ts:11-13 | an address of at least 4 characters becomes its first 4, `"..."`, and its last 4, eleven characters in all; a shorter one is repeated around the ellipsis |
| Util.InsertAtIndex | src/client/util.ts:15-17 | inserting at an index from 0 to the length splices the insert in before that index (at the length it appends); a negative index prepends; an index beyond the length appends; the length is the sum of both lengths |
| Util.PadZeros | src/client/util.ts:26-28 | the padding loop yields `max(width, len)` characters: zeros, then the original string |
| Util.Slice | src/client/util.ts:12 | `slice` with indices in order and in range is the slice between them; a negative start with no end takes that many characters from the end; a reversed range is empty; the result is never longer than the string |
| Util.PaddedNumeral | src/client/util.ts:25-28 | the padded numeral has at least `decimals + 1` digits and still denotes the amount |
| Util.IntegerPartIsQuotient | src/client/util.ts:26-30 | the padded numeral without its last `decimals` digits is the canonical numeral of `value / 10^decimals` |
| Util.KeptIntegerPart | src/client/util.ts:29-30 | after the cut, the integer part is the numeral of `value / 10^decimals` and at least one digit remains before the fraction |
| Util.KeptFraction | src/client/util.ts:29-35 | the fractional part is exactly `formatDecimals` digits, the low digits of `value / 10^(decimals - formatDecimals)`: truncated, not rounded |
| Util.InsertSeparatorsGroups | src/client/util.ts:31-33 | the separator loop starting at `len - 3` and stepping by 3 while positive produces the reference grouping in threes from the right |
| Util.Group3WellGrouped | src/client/util.ts:31-33 | in the grouped numeral a separator sits exactly where the distance to the end is a multiple of four: groups after the first have three digits, the first has one to three, none leads; removing the separators gives the digits back |
| Util.InsertSeparators | src/client/util.ts:31-33 | the separator loop of `formatNumber`; its result is characterised by `Util.InsertSeparatorsGroups` |
| Util.JoinParts | src/client/util.ts:30-41 | integer part grouped, decimal point, fractional part, then a space and the ticker exactly when the ticker is truthy |
| Util.FormatNumber | src/client/util.ts:19-42 | `formatNumber` as the source writes it: pad, cut, split, group, join, ticker; its result is characterised by `Util.FormatNumberSpec` |
| Util.FormatNumberSpec | src/client/util.ts:19-42 | `formatNumber` is the grouped numeral of `value / 10^decimals`, `"."`, the `formatDecimals` low digits of `value / 10^(decimals - formatDecimals)`, and the ticker suffix |
| Util.TwelveDecimalsShownWithTwo | src/client/client.ts:290 | a 12-decimal amount shown with 2 decimals is the grouped whole part, `"."`, and the two digits of `value / 10^10` modulo 100 (the modulo via `Numerals.LowDigitsValue`) |
| Util.FormatNumberExamples | src/client/util.ts:19-42 | `1234567890123456` gives `"1,234.56"`, `1000000000000` gives `"1.00"`, `5000000000000` with `KSM` gives `"5.00 KSM"`, `123456789012` gives `"0.12"` (12 decimals, 2 shown) |
| Ranking.SortByTotal | src/client/client.ts:278 | the sorted list is ordered by total, largest first, is a permutation of its input, and keeps every group of equal totals in input order (a stable sort) |
| Ranking.InsertByTotal | src/client/client.ts:278 | one insertion step of the stable sort: the new entry goes after every entry whose total is at least its own; characterised by `Ranking.InsertByTotalSpec` |
| Ranking.InsertByTotalSpec | src/client/client.ts:278 | inserting into a sorted list keeps it sorted, adds exactly the new entry, and places it after the entries it ties with |
| Ranking.SortKeepsSum | src/client/client.ts:278 | sorting does not change the sum of totals |
| Ranking.SortKeepsKeysUnique | src/client/client.ts:278 | sorting keeps top-level keys pairwise distinct |
| Aggregator.FindAccount | src/client/client.ts:150-152 | the lookup finds nothing exactly when no account has the id; what it finds has that id, is one of the accounts, and no account before it has the id (the first match, as `find` returns) |
| Aggregator.FindEntry | src/client/client.ts:180-182 | the lookup finds nothing exactly when no entry has the key; what it finds has that key, is one of the entries, and no entry before it has the key (the first match) |
| Aggregator.RemoveKey | src/client/client.ts:186-188 | the filter keeps exactly the entries with another key (each kept entry is one of the input, each input entry with another key is kept) |
| Aggregator.RemoveKeyConcat | src/client/client.ts:186-188 | the filter works piecewise over any split of the list, so the kept entries stay in their original order |
| Aggregator.RemovePresent | src/client/client.ts:186-188 | with distinct keys, filtering out a present key gives the list with exactly that entry's position cut out, keeps keys distinct, and subtracts its total |
| Aggregator.IdentityLabel | src/client/client.ts:165-170 | with an identity: its display name, and status Confirmed or Unconfirmed per its `confirmed` flag; without: the truncated address with status None |
| Aggregator.OwnRow | src/client/client.ts:156-179 | the reward's row has the reward's key and amount, no sub-rows, is folded, and takes `child_display` when the parent link is truthy, differs from the id and `child_display` is truthy; otherwise the identity name; otherwise the truncated address; status is None exactly in the first and last case |
| Aggregator.ParentRow | src/client/client.ts:206-227 | a new parent row has the parent's key and address, is named from the parent's identity only (never from `child_display`), and holds the one child row with the child's amount |
| Aggregator.Merge | src/client/client.ts:184-185 | merging a row keeps the entry's key, folding, address, display name and identity status, appends the row as the last sub-row after the old ones, and leaves the amount the total holds beyond its sub-rows unchanged |
| Aggregator.SplitOff | src/client/client.ts:241-243 | the split keeps key, total, folding, address, display name and identity status, and always leaves at least one sub-row; an entry that already has sub-rows is unchanged; one without gets itself as its only sub-row, whose total it then equals |
| Aggregator.MoveToEnd | src/client/client.ts:186-189 | the given entry ends up last; every entry before it is one of the old entries with another key, and every old entry with another key is kept |
| Aggregator.Plan | src/client/client.ts:149-276 | the branch the loop body takes for one reward, in source order: unknown account, own entry present, self-parent, distinct parent, plain insert; what each branch does to the list is stated by `Aggregator.PlanFacts` and the step lemmas below |
| Aggregator.SelfParentPlan | src/client/client.ts:190-229 | the self-parent branch: unknown parent account skips, an existing parent entry takes the row, otherwise a new parent row is built; stated by `Aggregator.PlanFacts` and `Aggregator.SelfParentShortcut` |
| Aggregator.ChildPlan | src/client/client.ts:230-273 | the distinct-parent branch: unknown parent account skips, an existing parent entry is split off and takes the row, otherwise a new parent row is appended; stated by `Aggregator.PlanFacts` and `Aggregator.ChildSplitsParent` |
| Aggregator.Step | src/client/client.ts:149-276 | one iteration of the loop; its effect is stated by `Aggregator.StepTotal`, `Aggregator.StepTouchesLast` and the invariants below |
| Aggregator.Fold | src/client/client.ts:149-277 | the loop over all rewards in order; its effect is stated by the `Fold…` lemmas below |
| Aggregator.PlanFacts | src/client/client.ts:149-276 | a reward is dropped exactly when `Skipped` holds; otherwise it replaces the entry found under `TouchedKey` by one grown by its amount, or appends one under that key, which is absent, with its amount |
| Aggregator.StepTotal | src/client/client.ts:149-276 | a dropped reward leaves the list unchanged; any other reward raises the sum of top-level totals by exactly its amount |
| Aggregator.StepKeepsKeysUnique | src/client/client.ts:180-276 | top-level keys stay pairwise distinct after each reward |
| Aggregator.StepTouchesLast | src/client/client.ts:180-276 | after a processed reward the entry it landed in is last, its total is its previous total (zero if new) plus the amount, and the other entries keep their relative order |
| Aggregator.StepKeepsShape | src/client/client.ts:180-276 | with a non-negative amount, every entry's total still covers the sum of its sub-rows, and sub-rows have no sub-rows |
| Aggregator.StepKeepsCollapsed | src/client/client.ts:171-179 | aggregation never unfolds an entry |
| Aggregator.FoldKeepsKeysUnique | src/client/client.ts:149-277 | keys stay distinct over the whole loop |
| Aggregator.FoldKeepsShape | src/client/client.ts:149-277 | with non-negative amounts, over the whole loop every total covers its sub-rows, which are one level deep |
| Aggregator.FoldKeepsCollapsed | src/client/client.ts:149-277 | entries stay folded over the whole loop |
| Aggregator.FoldTotal | src/client/client.ts:149-277 | when every reward's account and named parent account are known, the totals grow by exactly the sum of all rewards |
| Aggregator.UnknownRewardsIgnored | src/client/client.ts:150-155 | folding all rewards gives the same list as folding only those whose validator account is known |
| Aggregator.ProcessChartData | src/client/client.ts:148-280 | the leaderboard is ordered by total, has distinct keys, is a permutation of the aggregated list, and keeps ties in aggregation order |
| Aggregator.ProcessChartDataTotals | src/client/client.ts:118-280 | starting from the reset list: every entry is folded; if every reward resolves, the totals sum to the sum of all rewards; with non-negative amounts every total covers its one-level sub-rows |
| Aggregator.SelfParentShortcut | src/client/client.ts:190-229 | an account naming itself as parent never reaches the "parent entry exists" path; it gets a new row listing itself as the only sub-row |
| Aggregator.ChildSplitsParent | src/client/client.ts:237-249 | a child merged into an existing parent entry lands last; a parent without sub-rows first gets a copy of itself as it stood, so its sub-rows become the copy and the child, and its total becomes their sum |
| Aggregator.DuplicateRewardKeepsOneSub | src/client/client.ts:180-189 | a plain validator rewarded twice ends as one entry with both amounts, listing only the second row |
| Aggregator.ChildAfterParent | src/client/client.ts:180-249 | parent rewarded, then its sub-account: one entry with the parent row and the child row as sub-rows and their summed total, labelled with the parent's address and identity |
| Aggregator.ParentAfterChild | src/client/client.ts:180-272 | sub-account rewarded, then its parent: one entry with the child row and the parent row as sub-rows and their summed total, labelled with the parent's address and identity |
| Leaderboard.VisibleSubs | src/client/client.ts:317-322 | sub-rows are listed exactly when the entry has some and is unfolded, and then all of them |
| Leaderboard.RowsFrom | src/client/client.ts:285-323 | there are no more rows than entries; rows are numbered consecutively from the start position; every row holds an entry that passes the identity-only switch and lists exactly its visible sub-rows |
| Leaderboard.RowsAreShownEntries | src/client/client.ts:285-289 | the rendered rows hold exactly the entries that pass the switch, in list order: as many rows as filtered entries, row `i` holding filtered entry `i` |
| Leaderboard.DisplayEntries | src/client/client.ts:285-323 | positions run 1, 2, … without gaps; with identity-only on no row has status None; a row lists sub-rows exactly when its entry has some and is unfolded |
| Leaderboard.DisplayEntriesComplete | src/client/client.ts:286-289 | every entry that passes the switch is rendered; with the switch off every entry is rendered, in list order |
| Leaderboard.CollapsedShowsNoSubRows | src/client/client.ts:317-322 | on a list where nothing is unfolded, as right after a reload, no sub-rows are listed |

## Left out

- Fetching the data, the retry dialog, the spinner and locking the controls are left out: they are I/O
  and DOM plumbing. The model starts from the fetched `Data`.
- `getSS58Address` is left out: it is a call into the keyring library. It is the `AddressCodec`
  parameter.
- The HTML that `displayEntries` builds is left out: the caret and identity icons, the sub-row count and
  the markup. The formatted totals are left out too. Only the choice of rows, positions and sub-rows is
  modelled. The formatter is modelled on its own.
- The click handler that toggles `isExpanded` after a 500 ms timeout is left out. It is a DOM event and
  a timer.
- Date handling (`adjustDates`, `displayDate`) is left out: it is date arithmetic on the browser clock.
- The shallow copy `{ ...parentEntry }` is left out as aliasing. In JavaScript the copy shares its
  `subs` array with the parent. The model uses value semantics: the copy is the parent as it stood,
  with no sub-rows. The rendered sub-row shows only the copy's display name and total, and those agree
  in both readings.
- The comparator's `Number(...)` conversion is left out. It only passes on the sign of the bigint
  difference, so the model compares the integers directly.
- Negative amounts are left out of the formatter. `formatNumber` takes a `nat`, because a negative
  bigint would put its minus sign inside the zero padding.
- JavaScript strings index UTF-16 code units, while the model's strings index Unicode scalar values.
  `substring`, `slice`, `truncateSS58Address` and `insertAtIndex` therefore differ from the model on
  strings with characters outside the Basic Multilingual Plane. SS58 addresses, numerals and the
  separators are ASCII, where both readings agree.
