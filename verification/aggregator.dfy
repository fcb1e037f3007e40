/** The reward aggregation of `RichValidator.processChartData`: a left fold of the raw rewards into
    top-level leaderboard entries, grouping sub-accounts under their parent, followed by the stable
    descending sort by total.

    Each reward is first turned into a `Plan` that says what the mutation in `processChartData` does (skip it,
    replace one entry by its merged version, or append a new entry); `Step` then carries the plan
    out on the entry list. The branches of `Plan` follow the branches of the loop body of `processChartData` one
    to one, in the same order. */
module Aggregator {
  import opened Wrappers
  import opened Seqs
  import opened Types
  import opened Util
  import opened Ranking

  /** `getSS58Address(accountIdHex, ss58Prefix)`: the SS58 encoding is left abstract. */
  type AddressCodec = (string, nat) -> string

  function HasId(id: string): Account -> bool
  {
    (a: Account) => a.id == id
  }

  function HasKey(key: string): Entry -> bool
  {
    (e: Entry) => e.accountIdHex == key
  }

  function LacksKey(key: string): Entry -> bool
  {
    (e: Entry) => e.accountIdHex != key
  }

  /** `data.accounts.find(...)` on the account id. */
  function FindAccount(accounts: seq<Account>, id: string): (r: Optional<Account>)
    ensures r.Undefined? <==> forall i :: 0 <= i < |accounts| ==> accounts[i].id != id
    ensures r.Defined? ==> r.value.id == id && r.value in accounts
    ensures r.Defined? ==> exists k :: 0 <= k < |accounts| && accounts[k] == r.value && forall j :: 0 <= j < k ==> accounts[j].id != id
  {
    Find(accounts, HasId(id))
  }

  /** `this.entries.find(...)` on the entry key. */
  function FindEntry(entries: seq<Entry>, key: string): (r: Optional<Entry>)
    ensures r.Undefined? <==> forall i :: 0 <= i < |entries| ==> entries[i].accountIdHex != key
    ensures r.Defined? ==> r.value.accountIdHex == key && r.value in entries
    ensures r.Defined? ==> exists k :: 0 <= k < |entries| && entries[k] == r.value && forall j :: 0 <= j < k ==> entries[j].accountIdHex != key
  {
    Find(entries, HasKey(key))
  }

  /** `this.entries.filter(...)` dropping every entry with the given key. */
  function RemoveKey(entries: seq<Entry>, key: string): (r: seq<Entry>)
    ensures forall i :: 0 <= i < |r| ==> r[i].accountIdHex != key && r[i] in entries
    ensures forall i :: 0 <= i < |entries| && entries[i].accountIdHex != key ==> entries[i] in r
  {
    Filter(entries, LacksKey(key))
  }

  /** The filter works piecewise, so the entries it keeps stay in their order. */
  lemma RemoveKeyConcat(a: seq<Entry>, b: seq<Entry>, key: string)
    ensures RemoveKey(a + b, key) == RemoveKey(a, key) + RemoveKey(b, key)
  {
    FilterConcat(a, b, LacksKey(key));
  }

  /** A resolved display name with its identity status. */
  datatype Label = Label(display: string, status: IdentityStatus)

  /** The on-chain identity's display name and confirmation, or the truncated address when the
      account has no identity. */
  function IdentityLabel(identity: Optional<Identity>, address: string): (l: Label)
    ensures l.status == None <==> identity.Undefined?
    ensures identity.Defined? ==> l.display == identity.value.display && (l.status == Confirmed <==> identity.value.confirmed)
    ensures identity.Undefined? ==> l.display == TruncateSS58Address(address)
  {
    match identity
    case Undefined => Label(TruncateSS58Address(address), None)
    case Defined(id) => Label(id.display, if id.confirmed then Confirmed else Unconfirmed)
  }

  /** A sub-account shows its own `child_display` name: the parent link is set and points elsewhere,
      and the child name is non-empty. */
  predicate ChildDisplayApplies(account: Account)
  {
    Truthy(account.parentAccountId) && account.parentAccountId.value != account.id && Truthy(account.childDisplay)
  }

  /** The row a reward produces for its own validator account. */
  function OwnRow(account: Account, reward: Reward, codec: AddressCodec, prefix: nat): (row: Entry)
    ensures row.accountIdHex == reward.validatorAccountId && row.total == reward.totalReward
    ensures row.subs == [] && !row.isExpanded
    ensures row.address == codec(reward.validatorAccountId, prefix)
    ensures ChildDisplayApplies(account) ==> row.display == account.childDisplay.value && row.identityStatus == None
    ensures !ChildDisplayApplies(account) ==> Label(row.display, row.identityStatus) == IdentityLabel(account.identity, row.address)
    ensures row.identityStatus == None <==> ChildDisplayApplies(account) || account.identity.Undefined?
  {
    var address := codec(reward.validatorAccountId, prefix);
    var name :=
      if ChildDisplayApplies(account) then Label(account.childDisplay.value, None)
      else IdentityLabel(account.identity, address);
    Entry(reward.validatorAccountId, address, name.display, name.status, reward.totalReward, [], false)
  }

  /** A new parent row holding one sub-row; its name comes from the parent's identity only. */
  function ParentRow(parentAccount: Account, parentId: string, row: Entry, codec: AddressCodec, prefix: nat): (p: Entry)
    ensures p.accountIdHex == parentId && p.total == row.total && p.subs == [row] && !p.isExpanded
    ensures p.address == codec(parentId, prefix)
    ensures Label(p.display, p.identityStatus) == IdentityLabel(parentAccount.identity, p.address)
  {
    var address := codec(parentId, prefix);
    var name := IdentityLabel(parentAccount.identity, address);
    Entry(parentId, address, name.display, name.status, row.total, [row], false)
  }

  /** Adds a row's amount to an entry and lists the row among its subs. */
  function Merge(existing: Entry, row: Entry): (r: Entry)
    ensures r.accountIdHex == existing.accountIdHex && r.isExpanded == existing.isExpanded
    ensures r.address == existing.address && r.display == existing.display && r.identityStatus == existing.identityStatus
    ensures r.total - SumTotals(r.subs) == existing.total - SumTotals(existing.subs)
    ensures |r.subs| == |existing.subs| + 1 && r.subs[..|existing.subs|] == existing.subs && r.subs[|existing.subs|] == row
  {
    var r := existing.(total := existing.total + row.total, subs := existing.subs + [row]);
    assert r.subs[..|existing.subs|] == existing.subs;
    r
  }

  /** Before a parent entry takes its first sub-account, a copy of it as it stands becomes its first
      sub-row. */
  function SplitOff(parent: Entry): (r: Entry)
    ensures r.accountIdHex == parent.accountIdHex && r.total == parent.total && r.isExpanded == parent.isExpanded
    ensures r.address == parent.address && r.display == parent.display && r.identityStatus == parent.identityStatus
    ensures |r.subs| > 0
    ensures |parent.subs| > 0 ==> r == parent
    ensures |parent.subs| == 0 ==> r.subs == [parent] && SumTotals(r.subs) == r.total
  {
    if |parent.subs| == 0 then
      assert [parent][..0] == [];
      parent.(subs := [parent])
    else parent
  }

  /** Drops the entry with the same key and pushes the given one at the end. */
  function MoveToEnd(entries: seq<Entry>, e: Entry): (r: seq<Entry>)
    ensures |r| > 0 && r[|r| - 1] == e
    ensures forall i :: 0 <= i < |r| - 1 ==> r[i].accountIdHex != e.accountIdHex && r[i] in entries
    ensures forall i :: 0 <= i < |entries| && entries[i].accountIdHex != e.accountIdHex ==> entries[i] in r
  {
    RemoveKey(entries, e.accountIdHex) + [e]
  }

  /** What one reward does to the entry list. */
  datatype Action = Skip | Replace(previous: Entry, merged: Entry) | Append(added: Entry)

  /** The branches of the loop body, in the order `processChartData` tests them. */
  function Plan(entries: seq<Entry>, accounts: seq<Account>, reward: Reward, codec: AddressCodec, prefix: nat): Action
  {
    match FindAccount(accounts, reward.validatorAccountId)
    case Undefined => Skip
    case Defined(account) =>
      var row := OwnRow(account, reward, codec, prefix);
      match FindEntry(entries, reward.validatorAccountId)
      case Defined(existing) => Replace(existing, Merge(existing, row))
      case Undefined =>
        if account.parentAccountId == Defined(account.id) then
          SelfParentPlan(entries, accounts, account.parentAccountId.value, row, codec, prefix)
        else if Truthy(account.parentAccountId) then
          ChildPlan(entries, accounts, account.parentAccountId.value, row, codec, prefix)
        else
          Append(row)
  }

  /** The branch for an account that names itself as its parent. */
  function SelfParentPlan(entries: seq<Entry>, accounts: seq<Account>, parentId: string, row: Entry, codec: AddressCodec, prefix: nat): Action
  {
    match FindAccount(accounts, parentId)
    case Undefined => Skip
    case Defined(parentAccount) =>
      match FindEntry(entries, parentId)
      case Defined(parentEntry) => Replace(parentEntry, Merge(parentEntry, row))
      case Undefined => Append(ParentRow(parentAccount, parentId, row, codec, prefix))
  }

  /** The branch for a sub-account of a distinct parent. */
  function ChildPlan(entries: seq<Entry>, accounts: seq<Account>, parentId: string, row: Entry, codec: AddressCodec, prefix: nat): Action
  {
    match FindAccount(accounts, parentId)
    case Undefined => Skip
    case Defined(parentAccount) =>
      match FindEntry(entries, parentId)
      case Defined(parentEntry) => Replace(parentEntry, Merge(SplitOff(parentEntry), row))
      case Undefined => Append(ParentRow(parentAccount, parentId, row, codec, prefix))
  }

  function Apply(entries: seq<Entry>, action: Action): seq<Entry>
  {
    match action
    case Skip => entries
    case Replace(_, merged) => MoveToEnd(entries, merged)
    case Append(added) => entries + [added]
  }

  /** One iteration of the reward loop. */
  function Step(entries: seq<Entry>, accounts: seq<Account>, reward: Reward, codec: AddressCodec, prefix: nat): seq<Entry>
  {
    Apply(entries, Plan(entries, accounts, reward, codec, prefix))
  }

  /** The whole reward loop, left to right. */
  function Fold(entries: seq<Entry>, accounts: seq<Account>, rewards: seq<Reward>, codec: AddressCodec, prefix: nat): seq<Entry>
    decreases |rewards|
  {
    if |rewards| == 0 then entries
    else Fold(Step(entries, accounts, rewards[0], codec, prefix), accounts, rewards[1..], codec, prefix)
  }

  /** `processChartData` on a freshly reset entry list: aggregate, then sort. The result is ordered by
      total, has distinct keys, is a permutation of the aggregated list, and keeps ties in their
      aggregated order. */
  function ProcessChartData(data: Data, codec: AddressCodec, network: Network): (r: seq<Entry>)
    ensures SortedByTotal(r)
    ensures UniqueKeys(r)
    ensures multiset(r) == multiset(Fold([], data.accounts, data.rewards, codec, network.ss58Prefix))
    ensures forall t :: TiesOf(r, t) == TiesOf(Fold([], data.accounts, data.rewards, codec, network.ss58Prefix), t)
  {
    var folded := Fold([], data.accounts, data.rewards, codec, network.ss58Prefix);
    FoldKeepsKeysUnique([], data.accounts, data.rewards, codec, network.ss58Prefix);
    SortKeepsKeysUnique(folded);
    SortByTotal(folded)
  }

  // ---------------------------------------------------------------------------------------------
  // Which rewards are dropped, and which entry a reward touches

  /** The reward is dropped: its account is unknown, or it belongs to a sub-account of a distinct
      parent whose account is unknown while no entry carries the reward's own key yet. */
  predicate Skipped(entries: seq<Entry>, accounts: seq<Account>, reward: Reward)
  {
    match FindAccount(accounts, reward.validatorAccountId)
    case Undefined => true
    case Defined(account) =>
      FindEntry(entries, reward.validatorAccountId).Undefined?
      && account.parentAccountId != Defined(account.id)
      && Truthy(account.parentAccountId)
      && FindAccount(accounts, account.parentAccountId.value).Undefined?
  }

  /** The key of the entry a processed reward lands in: its own key when that entry already exists or
      the account has no parent, otherwise the parent's key. */
  function TouchedKey(entries: seq<Entry>, accounts: seq<Account>, reward: Reward): string
  {
    match FindAccount(accounts, reward.validatorAccountId)
    case Undefined => reward.validatorAccountId
    case Defined(account) =>
      if FindEntry(entries, reward.validatorAccountId).Undefined? && Truthy(account.parentAccountId) then
        account.parentAccountId.value
      else
        reward.validatorAccountId
  }

  /** The total an entry with the key holds before the step, zero when there is none. */
  function PriorTotal(entries: seq<Entry>, key: string): int
  {
    match FindEntry(entries, key)
    case Undefined => 0
    case Defined(e) => e.total
  }

  /** The action agrees with `Skipped` and `TouchedKey`, and raises the touched entry by the amount. */
  lemma PlanFacts(entries: seq<Entry>, accounts: seq<Account>, reward: Reward, codec: AddressCodec, prefix: nat)
    ensures Plan(entries, accounts, reward, codec, prefix).Skip? <==> Skipped(entries, accounts, reward)
    ensures Plan(entries, accounts, reward, codec, prefix).Replace? ==>
      var a := Plan(entries, accounts, reward, codec, prefix);
      a.merged.accountIdHex == TouchedKey(entries, accounts, reward)
      && FindEntry(entries, a.merged.accountIdHex) == Defined(a.previous)
      && a.merged.total == a.previous.total + reward.totalReward
    ensures Plan(entries, accounts, reward, codec, prefix).Append? ==>
      var a := Plan(entries, accounts, reward, codec, prefix);
      a.added.accountIdHex == TouchedKey(entries, accounts, reward)
      && FindEntry(entries, a.added.accountIdHex).Undefined?
      && a.added.total == reward.totalReward
  {
    match FindAccount(accounts, reward.validatorAccountId)
    case Undefined =>
    case Defined(account) =>
      var row := OwnRow(account, reward, codec, prefix);
      if FindEntry(entries, reward.validatorAccountId).Undefined? && Truthy(account.parentAccountId) {
        ParentBranchFacts(entries, accounts, account.parentAccountId.value, row, codec, prefix);
      }
  }

  /** The two parent branches drop the reward exactly when the parent account is unknown, and otherwise
      raise or create the parent's entry by the row's amount. */
  lemma ParentBranchFacts(entries: seq<Entry>, accounts: seq<Account>, parentId: string, row: Entry, codec: AddressCodec, prefix: nat)
    ensures SelfParentPlan(entries, accounts, parentId, row, codec, prefix).Skip? <==> FindAccount(accounts, parentId).Undefined?
    ensures ChildPlan(entries, accounts, parentId, row, codec, prefix).Skip? <==> FindAccount(accounts, parentId).Undefined?
    ensures ParentActionFits(SelfParentPlan(entries, accounts, parentId, row, codec, prefix), entries, parentId, row.total)
    ensures ParentActionFits(ChildPlan(entries, accounts, parentId, row, codec, prefix), entries, parentId, row.total)
  {
  }

  /** A replacement or an append of the entry keyed `key` that raises it by `amount`. */
  predicate ParentActionFits(a: Action, entries: seq<Entry>, key: string, amount: int)
  {
    && (a.Replace? ==> a.merged.accountIdHex == key && FindEntry(entries, key) == Defined(a.previous) && a.merged.total == a.previous.total + amount)
    && (a.Append? ==> a.added.accountIdHex == key && FindEntry(entries, key).Undefined? && a.added.total == amount)
  }

  // ---------------------------------------------------------------------------------------------
  // Carrying out an action

  /** With distinct keys, removing a present key drops exactly its one entry. */
  lemma RemovePresent(entries: seq<Entry>, key: string, e: Entry)
    requires UniqueKeys(entries)
    requires FindEntry(entries, key) == Defined(e)
    ensures UniqueKeys(RemoveKey(entries, key))
    ensures SumTotals(RemoveKey(entries, key)) == SumTotals(entries) - e.total
    ensures exists k :: 0 <= k < |entries| && entries[k] == e && RemoveKey(entries, key) == entries[..k] + entries[k + 1..]
  {
    var k :| 0 <= k < |entries| && entries[k] == e;
    forall i | 0 <= i < |entries| && i != k ensures LacksKey(key)(entries[i]) {
    }
    FilterDropsOne(entries, LacksKey(key), k);
    DropAt(entries, k);
  }

  /** Dropping one position keeps keys distinct and subtracts that entry's total. */
  lemma DropAt(entries: seq<Entry>, k: nat)
    requires UniqueKeys(entries) && k < |entries|
    ensures UniqueKeys(entries[..k] + entries[k + 1..])
    ensures SumTotals(entries[..k] + entries[k + 1..]) == SumTotals(entries) - entries[k].total
  {
    DropAtUnique(entries, k);
    SplitAt(entries, k);
    SumAround(entries[..k], entries[k], entries[k + 1..]);
  }

  lemma DropAtUnique(entries: seq<Entry>, k: nat)
    requires UniqueKeys(entries) && k < |entries|
    ensures UniqueKeys(entries[..k] + entries[k + 1..])
  {
    var r := entries[..k] + entries[k + 1..];
    forall i, j | 0 <= i < j < |r| ensures r[i].accountIdHex != r[j].accountIdHex {
      var i' := if i < k then i else i + 1;
      var j' := if j < k then j else j + 1;
      assert r[i] == entries[i'] && r[j] == entries[j'];
    }
  }

  lemma SumAround(a: seq<Entry>, x: Entry, b: seq<Entry>)
    ensures SumTotals(a + [x] + b) == SumTotals(a + b) + x.total
  {
    SumTotalsConcat(a + [x], b);
    SumTotalsConcat(a, [x]);
    SumTotalsConcat(a, b);
    SumOne(x);
  }

  /** Removing an absent key changes nothing. */
  lemma RemoveAbsent(entries: seq<Entry>, key: string)
    requires FindEntry(entries, key).Undefined?
    ensures RemoveKey(entries, key) == entries
  {
    FilterAll(entries, LacksKey(key));
  }

  /** Appending an entry under a new key keeps keys distinct and adds its total. */
  lemma AppendFresh(entries: seq<Entry>, added: Entry)
    requires UniqueKeys(entries)
    requires FindEntry(entries, added.accountIdHex).Undefined?
    ensures UniqueKeys(entries + [added])
    ensures SumTotals(entries + [added]) == SumTotals(entries) + added.total
  {
    assert (entries + [added])[..|entries|] == entries;
  }

  /** Moving a merged entry to the end keeps keys distinct and replaces the previous total by the new one. */
  lemma MoveMerged(entries: seq<Entry>, previous: Entry, merged: Entry)
    requires UniqueKeys(entries)
    requires FindEntry(entries, merged.accountIdHex) == Defined(previous)
    ensures UniqueKeys(MoveToEnd(entries, merged))
    ensures SumTotals(MoveToEnd(entries, merged)) == SumTotals(entries) - previous.total + merged.total
  {
    var rest := RemoveKey(entries, merged.accountIdHex);
    RemovePresent(entries, merged.accountIdHex, previous);
    assert (rest + [merged])[..|rest|] == rest;
  }

  // ---------------------------------------------------------------------------------------------
  // One step

  /** A dropped reward leaves the list as it was; any other reward raises the sum of top-level totals
      by exactly its amount. */
  lemma StepTotal(entries: seq<Entry>, accounts: seq<Account>, reward: Reward, codec: AddressCodec, prefix: nat)
    requires UniqueKeys(entries)
    ensures Skipped(entries, accounts, reward) ==> Step(entries, accounts, reward, codec, prefix) == entries
    ensures !Skipped(entries, accounts, reward) ==>
      SumTotals(Step(entries, accounts, reward, codec, prefix)) == SumTotals(entries) + reward.totalReward
  {
    PlanFacts(entries, accounts, reward, codec, prefix);
    match Plan(entries, accounts, reward, codec, prefix)
    case Skip =>
    case Replace(previous, merged) => MoveMerged(entries, previous, merged);
    case Append(added) => AppendFresh(entries, added);
  }

  /** Top-level keys stay pairwise distinct. */
  lemma StepKeepsKeysUnique(entries: seq<Entry>, accounts: seq<Account>, reward: Reward, codec: AddressCodec, prefix: nat)
    requires UniqueKeys(entries)
    ensures UniqueKeys(Step(entries, accounts, reward, codec, prefix))
  {
    PlanFacts(entries, accounts, reward, codec, prefix);
    match Plan(entries, accounts, reward, codec, prefix)
    case Skip =>
    case Replace(previous, merged) => MoveMerged(entries, previous, merged);
    case Append(added) => AppendFresh(entries, added);
  }

  /** A processed reward leaves the entry it landed in at the end of the list, grown by its amount,
      and every other entry where it was. */
  lemma StepTouchesLast(entries: seq<Entry>, accounts: seq<Account>, reward: Reward, codec: AddressCodec, prefix: nat)
    requires !Skipped(entries, accounts, reward)
    ensures var r := Step(entries, accounts, reward, codec, prefix);
      var k := TouchedKey(entries, accounts, reward);
      |r| >= 1
      && r[|r| - 1].accountIdHex == k
      && r[|r| - 1].total == PriorTotal(entries, k) + reward.totalReward
      && r[..|r| - 1] == RemoveKey(entries, k)
  {
    PlanFacts(entries, accounts, reward, codec, prefix);
    match Plan(entries, accounts, reward, codec, prefix)
    case Replace(previous, merged) =>
      var r := MoveToEnd(entries, merged);
      assert r[..|r| - 1] == RemoveKey(entries, merged.accountIdHex);
    case Append(added) =>
      RemoveAbsent(entries, added.accountIdHex);
      assert (entries + [added])[..|entries|] == entries;
  }

  // ---------------------------------------------------------------------------------------------
  // Shape of the entries

  /** The total covers the sub-rows, and the sub-rows have no sub-rows of their own. */
  predicate Shaped(e: Entry)
  {
    SumTotals(e.subs) <= e.total && forall i :: 0 <= i < |e.subs| ==> e.subs[i].subs == []
  }

  predicate AllShaped(entries: seq<Entry>)
  {
    forall i :: 0 <= i < |entries| ==> Shaped(entries[i])
  }

  lemma SumOne(e: Entry)
    ensures SumTotals([e]) == e.total
  {
    assert [e][..0] == [];
  }

  /** Merging a row without subs into a shaped entry keeps it shaped. */
  lemma MergeShaped(base: Entry, row: Entry)
    requires Shaped(base) && row.subs == []
    ensures Shaped(Merge(base, row))
  {
    assert (base.subs + [row])[..|base.subs|] == base.subs;
  }

  /** The split copy makes the parent's total exactly the sum of its one sub-row. */
  lemma SplitOffShaped(e: Entry)
    requires Shaped(e)
    ensures Shaped(SplitOff(e))
    ensures |e.subs| == 0 ==> SumTotals(SplitOff(e).subs) == e.total
  {
    if |e.subs| == 0 {
      SumOne(e);
    }
  }

  /** The merged or added entry an action produces is shaped when the entry it replaces was, given a
      non-negative amount. */
  lemma PlanShaped(entries: seq<Entry>, accounts: seq<Account>, reward: Reward, codec: AddressCodec, prefix: nat)
    requires reward.totalReward >= 0
    ensures var a := Plan(entries, accounts, reward, codec, prefix);
      (a.Replace? && Shaped(a.previous) ==> Shaped(a.merged)) && (a.Append? ==> Shaped(a.added))
  {
    var key := reward.validatorAccountId;
    match FindAccount(accounts, key)
    case Undefined =>
    case Defined(account) =>
      var row := OwnRow(account, reward, codec, prefix);
      match FindEntry(entries, key)
      case Defined(existing) =>
        if Shaped(existing) {
          MergeShaped(existing, row);
        }
      case Undefined =>
        if account.parentAccountId == Defined(account.id) || Truthy(account.parentAccountId) {
          ParentBranchShaped(entries, accounts, account.parentAccountId.value, row, codec, prefix);
        }
  }

  /** The parent branches keep entries shaped: a new parent entry holds exactly its one sub-row, and a
      split-off parent stays within its total. */
  lemma ParentBranchShaped(entries: seq<Entry>, accounts: seq<Account>, parentId: string, row: Entry, codec: AddressCodec, prefix: nat)
    requires row.subs == [] && row.total >= 0
    ensures var a := SelfParentPlan(entries, accounts, parentId, row, codec, prefix);
      (a.Replace? && Shaped(a.previous) ==> Shaped(a.merged)) && (a.Append? ==> Shaped(a.added))
    ensures var a := ChildPlan(entries, accounts, parentId, row, codec, prefix);
      (a.Replace? && Shaped(a.previous) ==> Shaped(a.merged)) && (a.Append? ==> Shaped(a.added))
  {
    SumOne(row);
    match FindEntry(entries, parentId)
    case Defined(pe) =>
      if Shaped(pe) {
        SplitOffShaped(pe);
        MergeShaped(pe, row);
        MergeShaped(SplitOff(pe), row);
      }
    case Undefined =>
  }

  /** Every top-level entry stays shaped when the amounts are non-negative. */
  lemma StepKeepsShape(entries: seq<Entry>, accounts: seq<Account>, reward: Reward, codec: AddressCodec, prefix: nat)
    requires AllShaped(entries) && reward.totalReward >= 0
    ensures AllShaped(Step(entries, accounts, reward, codec, prefix))
  {
    PlanFacts(entries, accounts, reward, codec, prefix);
    PlanShaped(entries, accounts, reward, codec, prefix);
    match Plan(entries, accounts, reward, codec, prefix)
    case Skip =>
    case Replace(previous, merged) =>
      var r := MoveToEnd(entries, merged);
      forall i | 0 <= i < |r| ensures Shaped(r[i]) {
        if i < |r| - 1 {
          assert r[i] in RemoveKey(entries, merged.accountIdHex);
        }
      }
    case Append(added) =>
  }

  /** Aggregation never unfolds an entry: merged entries keep the flag of the entry they replace and
      new entries start folded. */
  lemma StepKeepsCollapsed(entries: seq<Entry>, accounts: seq<Account>, reward: Reward, codec: AddressCodec, prefix: nat)
    requires Collapsed(entries)
    ensures Collapsed(Step(entries, accounts, reward, codec, prefix))
  {
    PlanFacts(entries, accounts, reward, codec, prefix);
    match Plan(entries, accounts, reward, codec, prefix)
    case Skip =>
    case Replace(previous, merged) =>
      assert merged.isExpanded == previous.isExpanded;
      var r := MoveToEnd(entries, merged);
      forall i | 0 <= i < |r| ensures !r[i].isExpanded {
        if i < |r| - 1 {
          assert r[i] in RemoveKey(entries, merged.accountIdHex);
        }
      }
    case Append(added) =>
  }

  // ---------------------------------------------------------------------------------------------
  // The whole loop

  /** The reward's account, and the parent account it names, are both known. */
  predicate Resolvable(accounts: seq<Account>, reward: Reward)
  {
    match FindAccount(accounts, reward.validatorAccountId)
    case Undefined => false
    case Defined(account) =>
      Truthy(account.parentAccountId) ==> FindAccount(accounts, account.parentAccountId.value).Defined?
  }

  predicate AllResolvable(accounts: seq<Account>, rewards: seq<Reward>)
  {
    forall i :: 0 <= i < |rewards| ==> Resolvable(accounts, rewards[i])
  }

  predicate NonNegative(rewards: seq<Reward>)
  {
    forall i :: 0 <= i < |rewards| ==> rewards[i].totalReward >= 0
  }

  /** Top-level keys stay distinct over the whole loop. */
  lemma {:induction false} FoldKeepsKeysUnique(entries: seq<Entry>, accounts: seq<Account>, rewards: seq<Reward>, codec: AddressCodec, prefix: nat)
    requires UniqueKeys(entries)
    ensures UniqueKeys(Fold(entries, accounts, rewards, codec, prefix))
    decreases |rewards|
  {
    if |rewards| > 0 {
      StepKeepsKeysUnique(entries, accounts, rewards[0], codec, prefix);
      FoldKeepsKeysUnique(Step(entries, accounts, rewards[0], codec, prefix), accounts, rewards[1..], codec, prefix);
    }
  }

  /** With non-negative amounts every entry's total covers its sub-rows, which are one level deep. */
  lemma {:induction false} FoldKeepsShape(entries: seq<Entry>, accounts: seq<Account>, rewards: seq<Reward>, codec: AddressCodec, prefix: nat)
    requires AllShaped(entries) && NonNegative(rewards)
    ensures AllShaped(Fold(entries, accounts, rewards, codec, prefix))
    decreases |rewards|
  {
    if |rewards| > 0 {
      StepKeepsShape(entries, accounts, rewards[0], codec, prefix);
      FoldKeepsShape(Step(entries, accounts, rewards[0], codec, prefix), accounts, rewards[1..], codec, prefix);
    }
  }

  /** A resolvable reward is never dropped, whatever the entries hold. */
  lemma ResolvableNotSkipped(entries: seq<Entry>, accounts: seq<Account>, reward: Reward)
    requires Resolvable(accounts, reward)
    ensures !Skipped(entries, accounts, reward)
  {
  }

  /** When every reward resolves, the top-level totals add up to the sum of all rewards. */
  lemma {:induction false} FoldTotal(entries: seq<Entry>, accounts: seq<Account>, rewards: seq<Reward>, codec: AddressCodec, prefix: nat)
    requires UniqueKeys(entries) && AllResolvable(accounts, rewards)
    ensures SumTotals(Fold(entries, accounts, rewards, codec, prefix)) == SumTotals(entries) + SumRewards(rewards)
    decreases |rewards|
  {
    if |rewards| > 0 {
      var next := Step(entries, accounts, rewards[0], codec, prefix);
      ResolvableNotSkipped(entries, accounts, rewards[0]);
      StepTotal(entries, accounts, rewards[0], codec, prefix);
      StepKeepsKeysUnique(entries, accounts, rewards[0], codec, prefix);
      assert AllResolvable(accounts, rewards[1..]) by {
        forall i | 0 <= i < |rewards| - 1 ensures Resolvable(accounts, rewards[1..][i]) {
          assert rewards[1..][i] == rewards[i + 1];
        }
      }
      FoldTotal(next, accounts, rewards[1..], codec, prefix);
    }
  }

  function HasAccount(accounts: seq<Account>): Reward -> bool
  {
    (r: Reward) => FindAccount(accounts, r.validatorAccountId).Defined?
  }

  /** Entries stay folded over the whole loop. */
  lemma {:induction false} FoldKeepsCollapsed(entries: seq<Entry>, accounts: seq<Account>, rewards: seq<Reward>, codec: AddressCodec, prefix: nat)
    requires Collapsed(entries)
    ensures Collapsed(Fold(entries, accounts, rewards, codec, prefix))
    decreases |rewards|
  {
    if |rewards| > 0 {
      StepKeepsCollapsed(entries, accounts, rewards[0], codec, prefix);
      FoldKeepsCollapsed(Step(entries, accounts, rewards[0], codec, prefix), accounts, rewards[1..], codec, prefix);
    }
  }

  /** Rewards of unknown validators play no part: folding only the rewards with a known account gives
      the same list. */
  lemma {:induction false} UnknownRewardsIgnored(entries: seq<Entry>, accounts: seq<Account>, rewards: seq<Reward>, codec: AddressCodec, prefix: nat)
    ensures Fold(entries, accounts, rewards, codec, prefix) == Fold(entries, accounts, Filter(rewards, HasAccount(accounts)), codec, prefix)
    decreases |rewards|
  {
    if |rewards| > 0 {
      var next := Step(entries, accounts, rewards[0], codec, prefix);
      UnknownRewardsIgnored(next, accounts, rewards[1..], codec, prefix);
      if HasAccount(accounts)(rewards[0]) {
        var kept := Filter(rewards, HasAccount(accounts));
        assert kept[0] == rewards[0] && kept[1..] == Filter(rewards[1..], HasAccount(accounts));
      } else {
        assert next == entries;
        UnknownRewardsIgnored(entries, accounts, rewards[1..], codec, prefix);
      }
    }
  }

  /** The leaderboard after a reload: every entry is folded; when every reward resolves, the totals add
      up to the sum of all rewards; with non-negative amounts every entry's total covers its one-level
      sub-rows. */
  lemma ProcessChartDataTotals(data: Data, codec: AddressCodec, network: Network)
    ensures Collapsed(ProcessChartData(data, codec, network))
    ensures AllResolvable(data.accounts, data.rewards) ==>
      SumTotals(ProcessChartData(data, codec, network)) == SumRewards(data.rewards)
    ensures NonNegative(data.rewards) ==> AllShaped(ProcessChartData(data, codec, network))
  {
    var folded := Fold([], data.accounts, data.rewards, codec, network.ss58Prefix);
    var r := ProcessChartData(data, codec, network);
    SortKeepsSum(folded);
    FoldKeepsCollapsed([], data.accounts, data.rewards, codec, network.ss58Prefix);
    forall i | 0 <= i < |r| ensures !r[i].isExpanded {
      assert r[i] in multiset(folded);
    }
    if AllResolvable(data.accounts, data.rewards) {
      FoldTotal([], data.accounts, data.rewards, codec, network.ss58Prefix);
    }
    if NonNegative(data.rewards) {
      FoldKeepsShape([], data.accounts, data.rewards, codec, network.ss58Prefix);
      forall i | 0 <= i < |r| ensures Shaped(r[i]) {
        assert r[i] in multiset(folded);
      }
    }
  }

  // ---------------------------------------------------------------------------------------------
  // Particular branches and short histories

  /** Appending under a new key makes the new entry the one found by that key. */
  lemma FindAppended(entries: seq<Entry>, x: Entry)
    requires FindEntry(entries, x.accountIdHex).Undefined?
    ensures FindEntry(entries + [x], x.accountIdHex) == Defined(x)
  {
    var r := FindEntry(entries + [x], x.accountIdHex);
    assert (entries + [x])[|entries|] == x;
    assert r.value in entries + [x];
  }

  /** Appending under another key finds nothing new. */
  lemma FindPastAppended(entries: seq<Entry>, x: Entry, key: string)
    requires FindEntry(entries, key).Undefined? && x.accountIdHex != key
    ensures FindEntry(entries + [x], key).Undefined?
  {
  }

  /** An account that names itself as its parent never reaches the "parent entry exists" path: it gets
      a new row that lists itself as its only sub-row. */
  lemma SelfParentShortcut(entries: seq<Entry>, accounts: seq<Account>, account: Account, reward: Reward, codec: AddressCodec, prefix: nat)
    requires FindAccount(accounts, reward.validatorAccountId) == Defined(account)
    requires account.parentAccountId == Defined(account.id)
    requires FindEntry(entries, reward.validatorAccountId).Undefined?
    ensures var row := OwnRow(account, reward, codec, prefix);
      Step(entries, accounts, reward, codec, prefix) == entries + [row.(subs := [row])]
  {
    var row := OwnRow(account, reward, codec, prefix);
    var p := ParentRow(account, account.id, row, codec, prefix);
    assert !ChildDisplayApplies(account);
    assert p == row.(subs := [row]);
  }

  /** A sub-account's reward merged into an existing parent entry: a parent without sub-rows first gets
      a copy of itself as it stood, then the child row; the total grows by the child's amount. */
  lemma ChildSplitsParent(entries: seq<Entry>, accounts: seq<Account>, account: Account, reward: Reward, codec: AddressCodec, prefix: nat, parent: Entry)
    requires FindAccount(accounts, reward.validatorAccountId) == Defined(account)
    requires FindEntry(entries, reward.validatorAccountId).Undefined?
    requires Truthy(account.parentAccountId) && account.parentAccountId.value != account.id
    requires FindAccount(accounts, account.parentAccountId.value).Defined?
    requires FindEntry(entries, account.parentAccountId.value) == Defined(parent)
    ensures var r := Step(entries, accounts, reward, codec, prefix);
      var row := OwnRow(account, reward, codec, prefix);
      r == RemoveKey(entries, parent.accountIdHex) + [r[|r| - 1]]
      && r[|r| - 1].accountIdHex == parent.accountIdHex
      && r[|r| - 1].total == parent.total + reward.totalReward
      && r[|r| - 1].subs == (if |parent.subs| == 0 then [parent] else parent.subs) + [row]
    ensures |parent.subs| == 0 ==>
      var r := Step(entries, accounts, reward, codec, prefix);
      SumTotals(r[|r| - 1].subs) == r[|r| - 1].total
  {
    var row := OwnRow(account, reward, codec, prefix);
    ChildMergesParent(entries, accounts, account, reward, codec, prefix, parent);
    var r := Step(entries, accounts, reward, codec, prefix);
    assert r[|r| - 1] == Merge(SplitOff(parent), row);
    if |parent.subs| == 0 {
      SumTotalsConcat([parent], [row]);
      SumOne(parent);
      SumOne(row);
    }
  }

  /** The step for a sub-account whose parent entry exists: the split-off parent takes the row. */
  lemma ChildMergesParent(entries: seq<Entry>, accounts: seq<Account>, account: Account, reward: Reward, codec: AddressCodec, prefix: nat, parent: Entry)
    requires FindAccount(accounts, reward.validatorAccountId) == Defined(account)
    requires FindEntry(entries, reward.validatorAccountId).Undefined?
    requires Truthy(account.parentAccountId) && account.parentAccountId.value != account.id
    requires FindAccount(accounts, account.parentAccountId.value).Defined?
    requires FindEntry(entries, account.parentAccountId.value) == Defined(parent)
    ensures Step(entries, accounts, reward, codec, prefix)
         == RemoveKey(entries, parent.accountIdHex) + [Merge(SplitOff(parent), OwnRow(account, reward, codec, prefix))]
  {
  }

  /** The same plain validator rewarded twice: one entry with both amounts, listing only the second
      row; no copy of the first row is made. */
  lemma DuplicateRewardKeepsOneSub(entries: seq<Entry>, accounts: seq<Account>, account: Account, first: Reward, second: Reward, codec: AddressCodec, prefix: nat)
    requires FindAccount(accounts, first.validatorAccountId) == Defined(account)
    requires second.validatorAccountId == first.validatorAccountId
    requires account.parentAccountId == Undefined
    requires FindEntry(entries, first.validatorAccountId).Undefined?
    ensures var r := Step(Step(entries, accounts, first, codec, prefix), accounts, second, codec, prefix);
      r == entries + [r[|r| - 1]]
      && r[|r| - 1].total == first.totalReward + second.totalReward
      && r[|r| - 1].subs == [OwnRow(account, second, codec, prefix)]
  {
    var row := OwnRow(account, first, codec, prefix);
    var once := Step(entries, accounts, first, codec, prefix);
    assert once == entries + [row];
    FindAppended(entries, row);
    RemoveAbsent(entries, row.accountIdHex);
    assert RemoveKey(once, row.accountIdHex) == entries by {
      FilterConcat(entries, [row], LacksKey(row.accountIdHex));
    }
  }

  /** A parent validator rewarded before its sub-account: the parent's own row is split off, so the
      entry lists the parent row then the child row, and its total is their sum. */
  lemma ChildAfterParent(entries: seq<Entry>, accounts: seq<Account>, parent: Account, child: Account, parentReward: Reward, childReward: Reward, codec: AddressCodec, prefix: nat)
    requires FindAccount(accounts, parentReward.validatorAccountId) == Defined(parent)
    requires FindAccount(accounts, childReward.validatorAccountId) == Defined(child)
    requires parent.parentAccountId == Undefined
    requires child.parentAccountId == Defined(parentReward.validatorAccountId)
    requires parentReward.validatorAccountId != "" && parentReward.validatorAccountId != childReward.validatorAccountId
    requires FindEntry(entries, parentReward.validatorAccountId).Undefined?
    requires FindEntry(entries, childReward.validatorAccountId).Undefined?
    ensures var r := Step(Step(entries, accounts, parentReward, codec, prefix), accounts, childReward, codec, prefix);
      r == entries + [r[|r| - 1]]
      && r[|r| - 1].accountIdHex == parentReward.validatorAccountId
      && r[|r| - 1].total == parentReward.totalReward + childReward.totalReward
      && r[|r| - 1].subs == [OwnRow(parent, parentReward, codec, prefix), OwnRow(child, childReward, codec, prefix)]
      && r[|r| - 1].address == codec(parentReward.validatorAccountId, prefix)
      && Label(r[|r| - 1].display, r[|r| - 1].identityStatus) == IdentityLabel(parent.identity, r[|r| - 1].address)
  {
    var parentRow := OwnRow(parent, parentReward, codec, prefix);
    assert Step(entries, accounts, parentReward, codec, prefix) == entries + [parentRow];
    ChildIntoAppendedParent(entries, accounts, child, childReward, codec, prefix, parentRow);
  }

  /** A sub-account's reward right after its parent's own row was appended splits that row off as the
      first sub-row and adds its own after it. */
  lemma ChildIntoAppendedParent(entries: seq<Entry>, accounts: seq<Account>, child: Account, reward: Reward, codec: AddressCodec, prefix: nat, parentRow: Entry)
    requires FindAccount(accounts, reward.validatorAccountId) == Defined(child)
    requires child.parentAccountId == Defined(parentRow.accountIdHex)
    requires parentRow.accountIdHex != "" && parentRow.accountIdHex != reward.validatorAccountId && parentRow.accountIdHex != child.id
    requires FindAccount(accounts, parentRow.accountIdHex).Defined?
    requires FindEntry(entries, parentRow.accountIdHex).Undefined?
    requires FindEntry(entries, reward.validatorAccountId).Undefined?
    ensures Step(entries + [parentRow], accounts, reward, codec, prefix)
         == entries + [Merge(SplitOff(parentRow), OwnRow(child, reward, codec, prefix))]
  {
    var key := parentRow.accountIdHex;
    FindAppended(entries, parentRow);
    FindPastAppended(entries, parentRow, reward.validatorAccountId);
    ChildMergesParent(entries + [parentRow], accounts, child, reward, codec, prefix, parentRow);
    assert RemoveKey(entries + [parentRow], key) == entries by {
      RemoveAbsent(entries, key);
      FilterConcat(entries, [parentRow], LacksKey(key));
      assert RemoveKey([parentRow], key) == [];
    }
  }

  /** A sub-account rewarded before its parent validator: a parent row is created around the child row,
      and the parent's own row is appended after it. */
  lemma ParentAfterChild(entries: seq<Entry>, accounts: seq<Account>, parent: Account, child: Account, parentReward: Reward, childReward: Reward, codec: AddressCodec, prefix: nat)
    requires FindAccount(accounts, parentReward.validatorAccountId) == Defined(parent)
    requires FindAccount(accounts, childReward.validatorAccountId) == Defined(child)
    requires parent.parentAccountId == Undefined
    requires child.parentAccountId == Defined(parentReward.validatorAccountId)
    requires parentReward.validatorAccountId != "" && parentReward.validatorAccountId != childReward.validatorAccountId
    requires FindEntry(entries, parentReward.validatorAccountId).Undefined?
    requires FindEntry(entries, childReward.validatorAccountId).Undefined?
    ensures var r := Step(Step(entries, accounts, childReward, codec, prefix), accounts, parentReward, codec, prefix);
      r == entries + [r[|r| - 1]]
      && r[|r| - 1].accountIdHex == parentReward.validatorAccountId
      && r[|r| - 1].total == childReward.totalReward + parentReward.totalReward
      && r[|r| - 1].subs == [OwnRow(child, childReward, codec, prefix), OwnRow(parent, parentReward, codec, prefix)]
      && r[|r| - 1].address == codec(parentReward.validatorAccountId, prefix)
      && Label(r[|r| - 1].display, r[|r| - 1].identityStatus) == IdentityLabel(parent.identity, r[|r| - 1].address)
  {
    var childRow := OwnRow(child, childReward, codec, prefix);
    var key := parentReward.validatorAccountId;
    var created := ParentRow(parent, key, childRow, codec, prefix);
    ChildCreatesParent(entries, accounts, child, childReward, codec, prefix, parent);
    MergeIntoAppended(entries, accounts, parent, parentReward, codec, prefix, created);
  }

  /** A reward for the key of the entry just appended merges into that entry, which stays last. */
  lemma MergeIntoAppended(entries: seq<Entry>, accounts: seq<Account>, account: Account, reward: Reward, codec: AddressCodec, prefix: nat, created: Entry)
    requires FindAccount(accounts, reward.validatorAccountId) == Defined(account)
    requires created.accountIdHex == reward.validatorAccountId
    requires FindEntry(entries, created.accountIdHex).Undefined?
    ensures Step(entries + [created], accounts, reward, codec, prefix) == entries + [Merge(created, OwnRow(account, reward, codec, prefix))]
  {
    var key := created.accountIdHex;
    FindAppended(entries, created);
    OwnKeyMerges(entries + [created], accounts, account, reward, codec, prefix, created);
    RemoveAbsent(entries, key);
    FilterConcat(entries, [created], LacksKey(key));
  }

  /** A sub-account's reward with neither its own nor its parent's entry present appends a fresh
      parent entry holding the sub-account's row. */
  lemma ChildCreatesParent(entries: seq<Entry>, accounts: seq<Account>, child: Account, reward: Reward, codec: AddressCodec, prefix: nat, parent: Account)
    requires FindAccount(accounts, reward.validatorAccountId) == Defined(child)
    requires Truthy(child.parentAccountId)
    requires FindAccount(accounts, child.parentAccountId.value) == Defined(parent)
    requires FindEntry(entries, reward.validatorAccountId).Undefined?
    requires FindEntry(entries, child.parentAccountId.value).Undefined?
    ensures Step(entries, accounts, reward, codec, prefix)
         == entries + [ParentRow(parent, child.parentAccountId.value, OwnRow(child, reward, codec, prefix), codec, prefix)]
  {
  }

  /** A reward whose own entry exists merges into that entry and moves it to the end. */
  lemma OwnKeyMerges(entries: seq<Entry>, accounts: seq<Account>, account: Account, reward: Reward, codec: AddressCodec, prefix: nat, existing: Entry)
    requires FindAccount(accounts, reward.validatorAccountId) == Defined(account)
    requires FindEntry(entries, reward.validatorAccountId) == Defined(existing)
    ensures Step(entries, accounts, reward, codec, prefix)
         == RemoveKey(entries, existing.accountIdHex) + [Merge(existing, OwnRow(account, reward, codec, prefix))]
  {
  }
}
