/** The records the leaderboard works on: accounts with their identities, raw rewards,
    the aggregated entries, and the two fixed network profiles. */
module Types {
  import opened Wrappers

  /** Whether an on-chain identity is set for the row, and whether registrars confirmed it. */
  datatype IdentityStatus = None | Confirmed | Unconfirmed

  /** On-chain identity metadata attached to an account. */
  datatype Identity = Identity(
    display: string,
    email: Optional<string>,
    twitter: Optional<string>,
    web: Optional<string>,
    confirmed: bool)

  /** One on-chain account; `parentAccountId` links a sub-account to its parent. */
  datatype Account = Account(
    id: string,
    address: string,
    parentAccountId: Optional<string>,
    identity: Optional<Identity>,
    childDisplay: Optional<string>)

  /** One raw reward record; the amount is an arbitrary-precision integer in minimal units. */
  datatype Reward = Reward(validatorAccountId: string, totalReward: int)

  /** The payload of one fetch. */
  datatype Data = Data(accounts: seq<Account>, rewards: seq<Reward>)

  /** A network profile: the SS58 prefix for address encoding and the fixed-point scale of amounts. */
  datatype Network = Network(name: string, ticker: string, ss58Prefix: nat, decimals: nat, dataUrl: string)

  const KUSAMA: Network := Network("Kusama", "KSM", 2, 12, "https://api.kusama.subvt.io:17900/validator/reward/chart")
  const POLKADOT: Network := Network("Polkadot", "DOT", 0, 10, "https://api.polkadot.subvt.io:18900/validator/reward/chart")

  /** One leaderboard row. `subs` holds the sub-rows; the aggregator fills it one level deep. */
  datatype Entry = Entry(
    accountIdHex: string,
    address: string,
    display: string,
    identityStatus: IdentityStatus,
    total: int,
    subs: seq<Entry>,
    isExpanded: bool)

  /** No account id appears twice among the entries. */
  predicate UniqueKeys(entries: seq<Entry>)
  {
    forall i, j :: 0 <= i < j < |entries| ==> entries[i].accountIdHex != entries[j].accountIdHex
  }

  /** No entry has its sub-rows unfolded. */
  predicate Collapsed(entries: seq<Entry>)
  {
    forall i :: 0 <= i < |entries| ==> !entries[i].isExpanded
  }

  /** Sum of the totals of a list of entries. */
  function SumTotals(entries: seq<Entry>): int
  {
    if |entries| == 0 then 0 else SumTotals(entries[..|entries| - 1]) + entries[|entries| - 1].total
  }

  /** Sum of the amounts of a list of rewards. */
  function SumRewards(rewards: seq<Reward>): int
  {
    if |rewards| == 0 then 0 else rewards[0].totalReward + SumRewards(rewards[1..])
  }

  /** Sums over entries split at any point. */
  lemma {:induction false} SumTotalsConcat(a: seq<Entry>, b: seq<Entry>)
    ensures SumTotals(a + b) == SumTotals(a) + SumTotals(b)
    decreases |b|
  {
    if |b| == 0 {
      assert a + b == a;
    } else {
      assert (a + b)[..|a + b| - 1] == a + b[..|b| - 1];
      SumTotalsConcat(a, b[..|b| - 1]);
    }
  }

  /** The network profiles hold the constants the formatter's callers depend on. */
  lemma NetworkProfiles()
    ensures KUSAMA.ticker == "KSM" && KUSAMA.ss58Prefix == 2 && KUSAMA.decimals == 12
    ensures POLKADOT.ticker == "DOT" && POLKADOT.ss58Prefix == 0 && POLKADOT.decimals == 10
    ensures 2 <= KUSAMA.decimals && 2 <= POLKADOT.decimals
  {
  }
}
