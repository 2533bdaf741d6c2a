/** The task-bounty contract: its storage, messages and handlers. */
module BountyContract {
  import opened Bytes

  const TWO_128: int := 0x1_0000_0000_0000_0000_0000_0000_0000_0000

  type uint128 = x: int | 0 <= x < TWO_128
  type Addr = string
  type Denom = string

  datatype Coin = Coin(denom: Denom, amount: uint128)

  datatype Config = Config(admin: Addr, feeCollector: Addr, feePct: uint64)

  datatype Bounty = Bounty(
    taskId: uint64, funder: Addr, amount: uint128, denom: Denom,
    multiplierPct: uint64, claimed: bool, claimer: Option<Addr>)

  /** CONFIG and BOUNTIES. */
  datatype Storage = Storage(config: Option<Config>, bounties: map<uint64, Bounty>)

  datatype ExecMsg =
    | FundBounty(taskId: uint64)
    | ClaimBounty(taskId: uint64)
    | UpdateFee(feePct: uint64)
    | AddBonus(taskId: uint64, multiplierPct: uint64)

  datatype Error =
    | NotInstantiated | InvalidAddress | Overflow
    | Unauthorized | BountyAlreadyExists | BountyNotFound | BountyAlreadyClaimed
    | NoFunds | MultipleDenoms | InvalidFee

  /** A bank send the contract asks for. */
  datatype Send = Send(to: Addr, coin: Coin)

  /** The storage after the call with the sends it emits, or an error and no change. */
  datatype Outcome = Ok(st: Storage, sends: seq<Send>) | Err(e: Error)

  // ---------- Payout arithmetic ----------

  lemma ProductNotNegative(a: int, b: int)
    requires a >= 0 && b >= 0
    ensures a * b >= 0
  {
  }

  function CheckedMul(a: uint128, b: uint128): Option<uint128> {
    ProductNotNegative(a, b);
    if a * b < TWO_128 then Some(a * b) else None
  }

  function CheckedSub(a: uint128, b: uint128): Option<uint128> {
    if b <= a then Some(a - b) else None
  }

  datatype Payout = Payout(gross: uint128, fee: uint128, net: uint128)

  /** The claim's checked steps: two multiplications, two roundings, one subtraction. */
  function ComputePayout(amount: uint128, multiplierPct: uint64, feePct: uint64): Option<Payout> {
    match CheckedMul(amount, multiplierPct)
    case None => None
    case Some(scaled) =>
      var gross := scaled / 100;
      match CheckedMul(gross, feePct)
      case None => None
      case Some(product) =>
        var fee := product / 100;
        match CheckedSub(gross, fee)
        case None => None
        case Some(net) => Some(Payout(gross, fee, net))
  }

  lemma PercentAtMost(x: nat, pct: nat)
    requires pct <= 100
    ensures x * pct <= x * 100
    ensures x * pct / 100 <= x
  {
    assert x * 100 - x * pct == x * (100 - pct);
  }

  /** With a fee of at most 100 percent the arithmetic fails exactly when the first
      product does not fit 128 bits; otherwise fee and net share out the gross. */
  lemma PayoutExact(amount: uint128, multiplierPct: uint64, feePct: uint64)
    requires feePct <= 100
    ensures var p := ComputePayout(amount, multiplierPct, feePct);
      && (p.None? <==> amount * multiplierPct >= TWO_128)
      && (p.Some? ==>
            && p.value.gross == amount * multiplierPct / 100
            && p.value.fee == p.value.gross * feePct / 100
            && p.value.fee + p.value.net == p.value.gross)
  {
    if amount * multiplierPct < TWO_128 {
      PercentAtMost(amount * multiplierPct / 100, feePct);
    }
  }

  lemma DivMod(x: nat, n: nat)
    requires n > 0
    ensures x == n * (x / n) + x % n && 0 <= x % n < n
  {
  }

  lemma DivUnique(x: int, q: int, r: int, n: int)
    requires 0 <= r < n && x == n * q + r
    ensures x / n == q
  {
    var d := q - x / n;
    assert n * d == x % n - r;
    if d != 0 { MultipleIsLarge(n, d); }
  }

  lemma MultipleIsLarge(n: int, d: int)
    requires n > 0 && d != 0
    ensures n * d >= n || n * d <= -n
  {
    if d > 0 { ProductNotNegative(n, d - 1); } else { ProductNotNegative(n, -d - 1); }
  }

  /** Rounding twice gives the single-division fee or one unit less, and less exactly when
      the two discarded remainders add up to a whole unit. */
  lemma TwoRoundings(amount: nat, multiplierPct: nat, feePct: nat)
    requires feePct <= 100
    ensures var scaled := amount * multiplierPct; var gross := scaled / 100;
      var twoStep := gross * feePct / 100; var single := scaled * feePct / 10000;
      && single - 1 <= twoStep <= single
      && (twoStep == single <==> 100 * (gross * feePct % 100) + scaled % 100 * feePct < 10000)
  {
    var scaled := amount * multiplierPct;
    var gross, r1 := scaled / 100, scaled % 100;
    DivMod(scaled, 100);
    var product := gross * feePct;
    var two, r2 := product / 100, product % 100;
    DivMod(product, 100);
    var rest := 100 * r2 + r1 * feePct;
    assert scaled * feePct == (100 * gross + r1) * feePct == 100 * product + r1 * feePct == 10000 * two + rest;
    assert r1 * feePct <= 99 * 100 by { PercentBound(r1, feePct); }
    if rest < 10000 {
      DivUnique(scaled * feePct, two, rest, 10000);
    } else {
      DivUnique(scaled * feePct, two + 1, rest - 10000, 10000);
    }
  }

  lemma PercentBound(r: nat, pct: nat)
    requires r <= 99 && pct <= 100
    ensures 0 <= r * pct <= 99 * 100
  {
  }

  lemma FeeBelowGross(gross: nat, feePct: nat)
    requires feePct <= 100
    ensures gross * feePct / 100 == gross <==> gross == 0 || feePct == 100
  {
    if gross > 0 && feePct < 100 {
      ProductNotNegative(gross, 99 - feePct);
      assert gross * (99 - feePct) == gross * 99 - gross * feePct;
    }
  }

  /** The claimer gets nothing exactly when the gross is nothing or the fee is everything. */
  lemma NetIsZeroIff(amount: uint128, multiplierPct: uint64, feePct: uint64)
    requires feePct <= 100
    ensures var p := ComputePayout(amount, multiplierPct, feePct);
      p.Some? ==> (p.value.net == 0 <==> amount * multiplierPct < 100 || feePct == 100)
  {
    ProductNotNegative(amount, multiplierPct);
    hide ComputePayout;
    PayoutExact(amount, multiplierPct, feePct);
    FeeBelowGross(amount * multiplierPct / 100, feePct);
  }

  // ---------- Handlers ----------

  function InstantiateOutcome(sender: Addr, feeCollector: Addr, feePct: uint64, validAddr: Addr -> bool): Outcome {
    if feePct > 100 then Err(InvalidFee)
    else if !validAddr(feeCollector) then Err(InvalidAddress)
    else Ok(Storage(Some(Config(sender, feeCollector, feePct)), map[]), [])
  }

  function FundOutcome(st: Storage, sender: Addr, funds: seq<Coin>, id: uint64): Outcome {
    if |funds| == 0 then Err(NoFunds)
    else if |funds| > 1 then Err(MultipleDenoms)
    else if id in st.bounties then Err(BountyAlreadyExists)
    else
      var b := Bounty(id, sender, funds[0].amount, funds[0].denom, 100, false, None);
      Ok(st.(bounties := st.bounties[id := b]), [])
  }

  function ClaimSends(sender: Addr, feeCollector: Addr, denom: Denom, p: Payout): seq<Send> {
    [Send(sender, Coin(denom, p.net))] + if p.fee == 0 then [] else [Send(feeCollector, Coin(denom, p.fee))]
  }

  function ClaimOutcome(st: Storage, sender: Addr, id: uint64): Outcome {
    if id !in st.bounties then Err(BountyNotFound)
    else
      var b := st.bounties[id];
      if b.claimed then Err(BountyAlreadyClaimed)
      else if st.config.None? then Err(NotInstantiated)
      else
        match ComputePayout(b.amount, b.multiplierPct, st.config.value.feePct)
        case None => Err(Overflow)
        case Some(p) =>
          Ok(st.(bounties := st.bounties[id := b.(claimed := true, claimer := Some(sender))]),
             ClaimSends(sender, st.config.value.feeCollector, b.denom, p))
  }

  function UpdateFeeOutcome(st: Storage, sender: Addr, feePct: uint64): Outcome {
    if st.config.None? then Err(NotInstantiated)
    else if sender != st.config.value.admin then Err(Unauthorized)
    else if feePct > 100 then Err(InvalidFee)
    else Ok(st.(config := Some(st.config.value.(feePct := feePct))), [])
  }

  function AddBonusOutcome(st: Storage, sender: Addr, id: uint64, multiplierPct: uint64): Outcome {
    if st.config.None? then Err(NotInstantiated)
    else if sender != st.config.value.admin then Err(Unauthorized)
    else if id !in st.bounties then Err(BountyNotFound)
    else Ok(st.(bounties := st.bounties[id := st.bounties[id].(multiplierPct := multiplierPct)]), [])
  }

  function HandlerOutcome(st: Storage, sender: Addr, funds: seq<Coin>, msg: ExecMsg): Outcome {
    match msg
    case FundBounty(id) => FundOutcome(st, sender, funds, id)
    case ClaimBounty(id) => ClaimOutcome(st, sender, id)
    case UpdateFee(feePct) => UpdateFeeOutcome(st, sender, feePct)
    case AddBonus(id, multiplierPct) => AddBonusOutcome(st, sender, id, multiplierPct)
  }

  // ---------- Listing ----------

  const DEFAULT_LIMIT: nat := 10
  const MAX_LIMIT: nat := 30

  function EffectiveLimit(limit: Option<nat>): nat {
    var l := if limit.Some? then limit.value else DEFAULT_LIMIT;
    if l <= MAX_LIMIT then l else MAX_LIMIT
  }

  predicate Past(id: uint64, after: Option<uint64>) {
    after.None? || id > after.value
  }

  /** The first `limit` bounties with ids past the cursor, by increasing id. */
  ghost predicate IsPage(bounties: map<uint64, Bounty>, after: Option<uint64>, limit: nat, ids: seq<uint64>) {
    && |ids| <= limit
    && (forall i, j :: 0 <= i < j < |ids| ==> ids[i] < ids[j])
    && (forall id :: id in ids ==> id in bounties && Past(id, after))
    && (forall id :: id in bounties && Past(id, after) && id !in ids ==>
          |ids| == limit && forall i :: 0 <= i < |ids| ==> ids[i] < id)
  }

  lemma EmptyPage(bounties: map<uint64, Bounty>, after: Option<uint64>)
    ensures IsPage(bounties, after, 0, [])
  {
  }

  /** Where the iterator stands after returning these ids. */
  function Cursor(after: Option<uint64>, ids: seq<uint64>): Option<uint64> {
    if ids == [] then after else Some(ids[|ids| - 1])
  }

  /** The least id past a page's cursor makes it a page of one more. */
  lemma PageAppend(bounties: map<uint64, Bounty>, after: Option<uint64>, ids: seq<uint64>, next: uint64)
    requires IsPage(bounties, after, |ids|, ids)
    requires next in bounties && Past(next, Cursor(after, ids))
    requires forall id :: id in bounties && Past(id, Cursor(after, ids)) ==> next <= id
    ensures IsPage(bounties, after, |ids| + 1, ids + [next])
  {
    hide Past;
    var ids' := ids + [next];
    PageCursor(bounties, after, ids);
    assert ids'[|ids|] == next;
    PastAll(after, ids, next);
    forall id | id in bounties && Past(id, after) && id !in ids' ensures forall i :: 0 <= i < |ids'| ==> ids'[i] < id {
      assert id !in ids && id != next;
    }
  }

  /** What is past a page's start is in it or past its cursor. */
  lemma PageCursor(bounties: map<uint64, Bounty>, after: Option<uint64>, ids: seq<uint64>)
    requires IsPage(bounties, after, |ids|, ids)
    ensures forall id :: id in bounties && Past(id, after) && id !in ids ==> Past(id, Cursor(after, ids))
    ensures ids != [] ==> Past(ids[|ids| - 1], after)
  {
    if ids != [] { assert ids[|ids| - 1] in ids; }
  }

  /** What is past the cursor is past the start and greater than every id of the page. */
  lemma PastAll(after: Option<uint64>, ids: seq<uint64>, next: uint64)
    requires forall i, j :: 0 <= i < j < |ids| ==> ids[i] < ids[j]
    requires ids != [] ==> Past(ids[|ids| - 1], after)
    requires Past(next, Cursor(after, ids))
    ensures Past(next, after) && forall i :: 0 <= i < |ids| ==> ids[i] < next
  {
  }

  /** With nothing past the cursor it is a page of any larger limit. */
  lemma PageEnds(bounties: map<uint64, Bounty>, after: Option<uint64>, ids: seq<uint64>, limit: nat)
    requires IsPage(bounties, after, |ids|, ids) && |ids| <= limit
    requires forall id :: id in bounties ==> !Past(id, Cursor(after, ids))
    ensures IsPage(bounties, after, limit, ids)
  {
  }

  /** The next id of an ascending iterator. */
  method NextId(bounties: map<uint64, Bounty>, after: Option<uint64>) returns (next: Option<uint64>)
    ensures next.Some? ==> next.value in bounties && Past(next.value, after)
    ensures forall id :: id in bounties && Past(id, after) ==> next.Some? && next.value <= id
  {
    next := None;
    var left := bounties.Keys;
    while left != {}
      invariant left <= bounties.Keys
      invariant next.Some? ==> next.value in bounties && Past(next.value, after)
      invariant forall id :: id in bounties.Keys - left && Past(id, after) ==> next.Some? && next.value <= id
      decreases left
    {
      var id :| id in left;
      left := left - {id};
      if Past(id, after) && (next.None? || id < next.value) { next := Some(id); }
    }
  }

  // ---------- The contract object ----------

  /** What a call returns. */
  datatype Reply = Sent(sends: seq<Send>) | Failed(e: Error)

  class TaskBounty {
    var config: Option<Config>
    var bounties: map<uint64, Bounty>

    constructor ()
      ensures State() == Storage(None, map[])
    {
      config, bounties := None, map[];
    }

    function State(): Storage
      reads this
    {
      Storage(config, bounties)
    }

    /** The call changed storage and answered as `o` says. */
    twostate predicate Did(o: Outcome, r: Reply)
      reads this
    {
      match o
      case Ok(st, sends) => State() == st && r == Sent(sends)
      case Err(e) => State() == old(State()) && r == Failed(e)
    }

    /** Runs once, on empty storage. */
    method Instantiate(sender: Addr, feeCollector: Addr, feePct: uint64, validAddr: Addr -> bool) returns (r: Reply)
      requires bounties == map[]
      modifies this
      ensures Did(InstantiateOutcome(sender, feeCollector, feePct, validAddr), r)
    {
      if feePct > 100 { return Failed(InvalidFee); }
      if !validAddr(feeCollector) { return Failed(InvalidAddress); }
      config := Some(Config(sender, feeCollector, feePct));
      r := Sent([]);
    }

    method ExecuteFundBounty(sender: Addr, funds: seq<Coin>, taskId: uint64) returns (r: Reply)
      modifies this
      ensures Did(FundOutcome(old(State()), sender, funds, taskId), r)
    {
      if |funds| == 0 { return Failed(NoFunds); }
      if |funds| > 1 { return Failed(MultipleDenoms); }
      if taskId in bounties { return Failed(BountyAlreadyExists); }
      var coin := funds[0];
      bounties := bounties[taskId := Bounty(taskId, sender, coin.amount, coin.denom, 100, false, None)];
      r := Sent([]);
    }

    method ExecuteClaimBounty(sender: Addr, taskId: uint64) returns (r: Reply)
      modifies this
      ensures Did(ClaimOutcome(old(State()), sender, taskId), r)
    {
      if taskId !in bounties { return Failed(BountyNotFound); }
      var bounty := bounties[taskId];
      if bounty.claimed { return Failed(BountyAlreadyClaimed); }
      if config.None? { return Failed(NotInstantiated); }
      var scaled := CheckedMul(bounty.amount, bounty.multiplierPct);
      if scaled.None? { return Failed(Overflow); }
      var gross: uint128 := scaled.value / 100;
      var product := CheckedMul(gross, config.value.feePct);
      if product.None? { return Failed(Overflow); }
      var fee: uint128 := product.value / 100;
      var net := CheckedSub(gross, fee);
      if net.None? { return Failed(Overflow); }
      bounty := bounty.(claimed := true);
      bounty := bounty.(claimer := Some(sender));
      bounties := bounties[taskId := bounty];
      var msgs := [Send(sender, Coin(bounty.denom, net.value))];
      if fee != 0 {
        msgs := msgs + [Send(config.value.feeCollector, Coin(bounty.denom, fee))];
      }
      r := Sent(msgs);
    }

    method ExecuteUpdateFee(sender: Addr, feePct: uint64) returns (r: Reply)
      modifies this
      ensures Did(UpdateFeeOutcome(old(State()), sender, feePct), r)
    {
      if config.None? { return Failed(NotInstantiated); }
      if sender != config.value.admin { return Failed(Unauthorized); }
      if feePct > 100 { return Failed(InvalidFee); }
      config := Some(config.value.(feePct := feePct));
      r := Sent([]);
    }

    method ExecuteAddBonus(sender: Addr, taskId: uint64, multiplierPct: uint64) returns (r: Reply)
      modifies this
      ensures Did(AddBonusOutcome(old(State()), sender, taskId, multiplierPct), r)
    {
      if config.None? { return Failed(NotInstantiated); }
      if sender != config.value.admin { return Failed(Unauthorized); }
      if taskId !in bounties { return Failed(BountyNotFound); }
      bounties := bounties[taskId := bounties[taskId].(multiplierPct := multiplierPct)];
      r := Sent([]);
    }

    method Execute(sender: Addr, funds: seq<Coin>, msg: ExecMsg) returns (r: Reply)
      modifies this
      ensures Did(HandlerOutcome(old(State()), sender, funds, msg), r)
    {
      match msg {
        case FundBounty(taskId) => r := ExecuteFundBounty(sender, funds, taskId);
        case ClaimBounty(taskId) => r := ExecuteClaimBounty(sender, taskId);
        case UpdateFee(feePct) => r := ExecuteUpdateFee(sender, feePct);
        case AddBonus(taskId, multiplierPct) => r := ExecuteAddBonus(sender, taskId, multiplierPct);
      }
    }

    /** ListBounties: the page's ids and their records. */
    method ListBounties(startAfter: Option<uint64>, limit: Option<nat>) returns (ids: seq<uint64>, page: seq<Bounty>)
      ensures IsPage(bounties, startAfter, EffectiveLimit(limit), ids)
      ensures EffectiveLimit(limit) == (match limit case None => 10 case Some(n) => if n <= 30 then n else 30)
      ensures |page| == |ids| && forall i :: 0 <= i < |ids| ==> page[i] == bounties[ids[i]]
    {
      hide IsPage, Past;
      var take := EffectiveLimit(limit);
      ids, page := [], [];
      EmptyPage(bounties, startAfter);
      while |ids| < take
        invariant |ids| <= take && |page| == |ids|
        invariant IsPage(bounties, startAfter, |ids|, ids)
        invariant forall i :: 0 <= i < |ids| ==> ids[i] in bounties && page[i] == bounties[ids[i]]
      {
        var next := NextId(bounties, Cursor(startAfter, ids));
        if next.None? {
          PageEnds(bounties, startAfter, ids, take);
          return;
        }
        PageAppend(bounties, startAfter, ids, next.value);
        ids := ids + [next.value];
        page := page + [bounties[next.value]];
      }
    }
  }
}
