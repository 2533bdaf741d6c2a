/** When the contract can pay: escrow, coverage over runs, and exactly when a claim succeeds. */
module BountySolvency {
  import opened Bytes
  import opened BountyContract
  import opened BountyRuns
  import opened MapSums

  function Gross(b: Bounty): nat {
    ProductNotNegative(b.amount, b.multiplierPct);
    b.amount * b.multiplierPct / 100
  }

  function LockedIn(d: Denom): (uint64, Bounty) -> int {
    (id: uint64, b: Bounty) => if !b.claimed && b.denom == d then b.amount else 0
  }

  function OwedIn(d: Denom): (uint64, Bounty) -> int {
    (id: uint64, b: Bounty) => if !b.claimed && b.denom == d then Gross(b) else 0
  }

  /** What was paid in for bounties not yet claimed. */
  ghost function Locked(st: Storage, d: Denom): int {
    Sum<uint64, Bounty>(st.bounties, LockedIn(d))
  }

  /** What claims of all unclaimed bounties would take out. */
  ghost function Owed(st: Storage, d: Denom): int {
    Sum<uint64, Bounty>(st.bounties, OwedIn(d))
  }

  ghost predicate Covered(env: Env, w: World) {
    forall d :: Balance(w.bank, env.self, d) >= Locked(w.st, d)
  }

  ghost predicate Modest(st: Storage) {
    forall id :: id in st.bounties ==> st.bounties[id].multiplierPct <= 100
  }

  predicate ModestEvents(es: seq<Event>) {
    forall e :: e in es && e.Exec? && e.msg.AddBonus? ==> e.msg.multiplierPct <= 100
  }

  // ---------- Balances ----------

  function CoinSum(coins: seq<Coin>, d: Denom): nat {
    if coins == [] then 0 else (if coins[0].denom == d then coins[0].amount else 0) + CoinSum(coins[1..], d)
  }

  /** What the sends take away from the contract: all but those to itself. */
  function SendsOut(env: Env, sends: seq<Send>, d: Denom): nat {
    if sends == [] then 0
    else
      (if sends[0].coin.denom == d && sends[0].to != env.self then sends[0].coin.amount else 0)
      + SendsOut(env, sends[1..], d)
  }

  lemma {:induction false} FundsArrive(bank: Bank, sender: Addr, self: Addr, coins: seq<Coin>, d: Denom)
    requires sender != self && TransferAll(bank, sender, self, coins).Some?
    ensures Balance(TransferAll(bank, sender, self, coins).value, self, d) == Balance(bank, self, d) + CoinSum(coins, d)
    decreases |coins|
  {
    if coins != [] { FundsArrive(Transfer(bank, sender, self, coins[0]).value, sender, self, coins[1..], d); }
  }

  lemma NoCoins(bank: Bank, sender: Addr, to: Addr)
    ensures TransferAll(bank, sender, to, []) == Some(bank)
  {
  }

  lemma {:induction false} SendsLeave(env: Env, bank: Bank, sends: seq<Send>, d: Denom)
    requires Dispatch(env, bank, sends).Some?
    ensures Balance(Dispatch(env, bank, sends).value, env.self, d)
      == Balance(bank, env.self, d) - SendsOut(env, sends, d)
    decreases |sends|
  {
    if sends != [] {
      var bank' := Transfer(bank, env.self, sends[0].to, sends[0].coin).value;
      assert Balance(bank', env.self, d) == Balance(bank, env.self, d)
        - if sends[0].coin.denom == d && sends[0].to != env.self then sends[0].coin.amount else 0;
      hide Transfer, Balance;
      SendsLeave(env, bank', sends[1..], d);
    }
  }

  /** What a claim takes out of the contract: the gross, less the fee when the contract
      collects it itself. */
  function Cost(env: Env, config: Config, b: Bounty): int {
    ProductNotNegative(Gross(b), config.feePct);
    Gross(b) - if config.feeCollector == env.self then Gross(b) * config.feePct / 100 else 0
  }

  lemma ClaimSendsOut(env: Env, sender: Addr, feeCollector: Addr, denom: Denom, p: Payout, d: Denom)
    requires sender != env.self
    ensures SendsOut(env, ClaimSends(sender, feeCollector, denom, p), d)
      == if d == denom then p.net + (if feeCollector == env.self then 0 else p.fee) else 0
  {
    var net, fee := Send(sender, Coin(denom, p.net)), Send(feeCollector, Coin(denom, p.fee));
    var sends := ClaimSends(sender, feeCollector, denom, p);
    assert SendsOut(env, [], d) == 0;
    assert [fee][1..] == [];
    assert SendsOut(env, [fee], d) == if d == denom && feeCollector != env.self then p.fee else 0;
    assert sends[1..] == if p.fee == 0 then [] else [fee];
  }

  // ---------- Escrow under each handler ----------

  /** Funding locks exactly what it brings, a claim unlocks exactly what was locked for
      it, nothing else touches the escrow, whatever the multipliers are. */
  lemma EscrowChange(st: Storage, sender: Addr, funds: seq<Coin>, msg: ExecMsg, d: Denom)
    requires HandlerOutcome(st, sender, funds, msg).Ok?
    ensures Locked(HandlerOutcome(st, sender, funds, msg).st, d) == Locked(st, d) +
      match msg
      case FundBounty(_) => CoinSum(funds, d)
      case ClaimBounty(id) => if st.bounties[id].denom == d then 0 - st.bounties[id].amount else 0
      case _ => 0
  {
    var o := HandlerOutcome(st, sender, funds, msg);
    match msg
    case FundBounty(id) =>
      SumPut<uint64, Bounty>(st.bounties, LockedIn(d), id, o.st.bounties[id]);
      assert CoinSum(funds[1..], d) == 0;
    case ClaimBounty(id) =>
      hide ComputePayout;
      SumPut<uint64, Bounty>(st.bounties, LockedIn(d), id, o.st.bounties[id]);
    case UpdateFee(_) =>
    case AddBonus(id, m) =>
      SumPut<uint64, Bounty>(st.bounties, LockedIn(d), id, o.st.bounties[id]);
  }

  // ---------- The surplus ledger ----------

  /** What the contract holds beyond the unclaimed escrow; below zero it cannot pay. */
  ghost function Surplus(env: Env, w: World, d: Denom): int {
    Balance(w.bank, env.self, d) - Locked(w.st, d)
  }

  /** What an event that goes through brings in without locking it: a plain transfer to
      the contract, or funds attached to a message other than FundBounty. */
  function Income(env: Env, w: World, e: Event, d: Denom): nat {
    if !Step(env, w, e).1 then 0
    else
      match e
      case BankTransfer(_, to, coin) => if to == env.self && coin.denom == d then coin.amount else 0
      case Exec(_, funds, msg) => if msg.FundBounty? then 0 else CoinSum(funds, d)
  }

  /** What a claim that goes through costs beyond the escrow it unlocks. */
  function Premium(env: Env, w: World, e: Event, d: Denom): int {
    if Step(env, w, e).1 && e.Exec? && e.msg.ClaimBounty? && w.st.config.Some? && e.msg.taskId in w.st.bounties then
      var b := w.st.bounties[e.msg.taskId];
      if b.denom == d then Cost(env, w.st.config.value, b) - b.amount else 0
    else 0
  }

  lemma ClaimSendsCost(env: Env, st: Storage, sender: Addr, id: uint64, d: Denom)
    requires WellFormed(st) && sender != env.self && ClaimOutcome(st, sender, id).Ok?
    ensures SendsOut(env, ClaimOutcome(st, sender, id).sends, d)
      == if st.bounties[id].denom == d then Cost(env, st.config.value, st.bounties[id]) else 0
  {
    var b, config := st.bounties[id], st.config.value;
    PayoutExact(b.amount, b.multiplierPct, config.feePct);
    var p := ComputePayout(b.amount, b.multiplierPct, config.feePct).value;
    hide ComputePayout;
    ClaimSendsOut(env, sender, config.feeCollector, b.denom, p, d);
  }

  lemma StepSurplus(env: Env, w: World, e: Event, d: Denom)
    requires WellFormed(w.st) && e.sender != env.self
    ensures Surplus(env, Step(env, w, e).0, d) == Surplus(env, w, d) + Income(env, w, e, d) - Premium(env, w, e, d)
  {
    match e
    case BankTransfer(sender, to, coin) =>
      hide Locked;
    case Exec(sender, funds, msg) =>
      hide Locked, Transfer, TransferAll, Dispatch, Balance, ClaimOutcome, Cost, CoinSum;
      var funded := TransferAll(w.bank, sender, env.self, funds);
      var o := HandlerOutcome(w.st, sender, funds, msg);
      if funded.Some? && o.Ok? {
        FundsArrive(w.bank, sender, env.self, funds, d);
        EscrowChange(w.st, sender, funds, msg, d);
        if msg.ClaimBounty? {
          ClaimOkFinds(w.st, sender, msg.taskId);
          ClaimSendsCost(env, w.st, sender, msg.taskId, d);
        }
        if Dispatch(env, funded.value, o.sends).Some? { SendsLeave(env, funded.value, o.sends, d); }
      }
  }

  lemma ClaimOkFinds(st: Storage, sender: Addr, id: uint64)
    requires ClaimOutcome(st, sender, id).Ok?
    ensures id in st.bounties && st.config.Some?
  {
  }

  function Incomes(env: Env, w: World, es: seq<Event>, d: Denom): nat
    decreases |es|
  {
    if es == [] then 0 else Income(env, w, es[0], d) + Incomes(env, Step(env, w, es[0]).0, es[1..], d)
  }

  function Premiums(env: Env, w: World, es: seq<Event>, d: Denom): int
    decreases |es|
  {
    if es == [] then 0 else Premium(env, w, es[0], d) + Premiums(env, Step(env, w, es[0]).0, es[1..], d)
  }

  /** Over every run, with whatever multipliers: the surplus changes by exactly the
      income less the premiums. */
  lemma {:induction false} RunSurplus(env: Env, w: World, es: seq<Event>, d: Denom)
    requires WellFormed(w.st) && Admissible(env, es)
    ensures Surplus(env, Run(env, w, es), d) == Surplus(env, w, d) + Incomes(env, w, es, d) - Premiums(env, w, es, d)
    decreases |es|
  {
    if es != [] {
      assert es[0] in es && forall e :: e in es[1..] ==> e in es;
      hide Step, WellFormed, Surplus, Income, Premium;
      StepKeeps(env, w, es[0]);
      StepSurplus(env, w, es[0], d);
      RunSurplus(env, Step(env, w, es[0]).0, es[1..], d);
    }
  }

  /** From instantiation the escrow is covered after a run exactly when in every
      denomination the premiums of its claims do not exceed what the contract's address
      held at the start and the income since. */
  lemma CoveredIff(
      env: Env, admin: Addr, feeCollector: Addr, feePct: uint64, validAddr: Addr -> bool, bank: Bank, es: seq<Event>)
    requires InstantiateOutcome(admin, feeCollector, feePct, validAddr).Ok? && Admissible(env, es)
    ensures var w0 := World(InstantiateOutcome(admin, feeCollector, feePct, validAddr).st, bank);
      Covered(env, Run(env, w0, es)) <==>
        forall d :: Premiums(env, w0, es, d) <= Balance(bank, env.self, d) + Incomes(env, w0, es, d)
  {
    var w0 := World(InstantiateOutcome(admin, feeCollector, feePct, validAddr).st, bank);
    var w := Run(env, w0, es);
    InstantiateWellFormed(admin, feeCollector, feePct, validAddr);
    forall d
      ensures Balance(w.bank, env.self, d) >= Locked(w.st, d) <==>
        Premiums(env, w0, es, d) <= Balance(bank, env.self, d) + Incomes(env, w0, es, d)
    {
      assert Locked(w0.st, d) == 0;
      RunSurplus(env, w0, es, d);
    }
  }

  // ---------- Multipliers of at most 100 ----------

  lemma StepModest(env: Env, w: World, e: Event)
    requires Modest(w.st) && ModestEvents([e])
    ensures Modest(Step(env, w, e).0.st)
  {
    assert e in [e];
    hide ComputePayout, TransferAll, Dispatch, Transfer;
  }

  /** A modest multiplier earns no premium. */
  lemma ModestPremium(env: Env, w: World, e: Event, d: Denom)
    requires WellFormed(w.st) && Modest(w.st)
    ensures Premium(env, w, e, d) <= 0
  {
    hide Step;
    if e.Exec? && e.msg.ClaimBounty? && e.msg.taskId in w.st.bounties {
      var b := w.st.bounties[e.msg.taskId];
      PercentAtMost(b.amount, b.multiplierPct);
    }
  }

  lemma StepCovered(env: Env, w: World, e: Event)
    requires WellFormed(w.st) && Modest(w.st) && Covered(env, w) && e.sender != env.self
    ensures Covered(env, Step(env, w, e).0)
  {
    hide Step, Income, Premium, Balance, Locked, WellFormed, Modest;
    forall d ensures Balance(Step(env, w, e).0.bank, env.self, d) >= Locked(Step(env, w, e).0.st, d) {
      assert Balance(w.bank, env.self, d) >= Locked(w.st, d);
      StepSurplus(env, w, e, d);
      ModestPremium(env, w, e, d);
    }
  }

  lemma OwedAtMostLocked(st: Storage, d: Denom)
    requires Modest(st)
    ensures Owed(st, d) <= Locked(st, d)
  {
    forall id | id in st.bounties ensures OwedIn(d)(id, st.bounties[id]) <= LockedIn(d)(id, st.bounties[id]) {
      PercentAtMost(st.bounties[id].amount, st.bounties[id].multiplierPct);
    }
    SumAtMost<uint64, Bounty>(st.bounties, OwedIn(d), LockedIn(d));
  }

  lemma {:induction false} RunCovered(env: Env, w: World, es: seq<Event>)
    requires WellFormed(w.st) && Modest(w.st) && Covered(env, w)
    requires Admissible(env, es) && ModestEvents(es)
    ensures WellFormed(Run(env, w, es).st) && Modest(Run(env, w, es).st) && Covered(env, Run(env, w, es))
    decreases |es|
  {
    if es != [] {
      assert es[0] in es && forall e :: e in es[1..] ==> e in es;
      hide Step, WellFormed, Modest, Covered;
      StepKeeps(env, w, es[0]);
      StepModest(env, w, es[0]);
      StepCovered(env, w, es[0]);
      RunCovered(env, Step(env, w, es[0]).0, es[1..]);
    }
  }

  /** Solvency: from instantiation, whatever the bank holds then, while every multiplier
      ever set is at most 100, the contract's balance in every denomination covers both
      all unclaimed escrow and everything claims could take out. */
  lemma Solvent(
      env: Env, admin: Addr, feeCollector: Addr, feePct: uint64, validAddr: Addr -> bool, bank: Bank, es: seq<Event>)
    requires InstantiateOutcome(admin, feeCollector, feePct, validAddr).Ok?
    requires Admissible(env, es) && ModestEvents(es)
    ensures var w := Run(env, World(InstantiateOutcome(admin, feeCollector, feePct, validAddr).st, bank), es);
      && WellFormed(w.st) && Modest(w.st) && Covered(env, w)
      && forall d :: Balance(w.bank, env.self, d) >= Owed(w.st, d)
  {
    var w0 := World(InstantiateOutcome(admin, feeCollector, feePct, validAddr).st, bank);
    InstantiateWellFormed(admin, feeCollector, feePct, validAddr);
    assert forall d :: Locked(w0.st, d) == 0;
    RunCovered(env, w0, es);
    var w := Run(env, w0, es);
    forall d ensures Balance(w.bank, env.self, d) >= Owed(w.st, d) {
      OwedAtMostLocked(w.st, d);
      assert Balance(w.bank, env.self, d) >= Locked(w.st, d);
    }
  }

  // ---------- Exactly when a claim succeeds ----------

  /** Both sends go through exactly when the balance holds the gross and the bank takes
      the claimer's send. */
  lemma ClaimDispatch(env: Env, bank: Bank, sender: Addr, feeCollector: Addr, denom: Denom, p: Payout)
    requires sender != env.self && p.net + p.fee == p.gross
    ensures Dispatch(env, bank, ClaimSends(sender, feeCollector, denom, p)).Some? <==>
      Balance(bank, env.self, denom) >= p.gross && (p.net > 0 || env.zeroOk)
  {
    var net, fee := Send(sender, Coin(denom, p.net)), Send(feeCollector, Coin(denom, p.fee));
    var sends := ClaimSends(sender, feeCollector, denom, p);
    assert sends[1..] == if p.fee == 0 then [] else [fee];
    var first := Transfer(bank, env.self, sender, net.coin);
    if first.Some? {
      assert Balance(first.value, env.self, denom) == Balance(bank, env.self, denom) - p.net;
      if p.fee > 0 { DispatchOne(env, first.value, fee); }
      assert Dispatch(env, first.value, []) == Some(first.value);
    }
  }

  lemma DispatchOne(env: Env, bank: Bank, s: Send)
    requires s.coin.amount > 0
    ensures Dispatch(env, bank, [s]).Some? <==> Balance(bank, env.self, s.coin.denom) >= s.coin.amount
  {
    assert [s][1..] == [];
  }

  /** A claim goes through exactly when its funds arrive, the bounty is there unclaimed,
      the first product fits 128 bits, the balance holds the gross, and the claimer's
      share is not a zero send the bank refuses. */
  lemma ClaimSucceedsIff(env: Env, w: World, sender: Addr, funds: seq<Coin>, id: uint64)
    requires WellFormed(w.st) && sender != env.self
    ensures var funded := TransferAll(w.bank, sender, env.self, funds);
      Step(env, w, Exec(sender, funds, ClaimBounty(id))).1 <==>
        && funded.Some? && id in w.st.bounties
        && var b := w.st.bounties[id];
           && !b.claimed && b.amount * b.multiplierPct < TWO_128
           && Balance(funded.value, env.self, b.denom) >= Gross(b)
           && (env.zeroOk || (b.amount * b.multiplierPct >= 100 && w.st.config.value.feePct < 100))
  {
    hide TransferAll, Dispatch, Balance;
    if id in w.st.bounties {
      var b, config := w.st.bounties[id], w.st.config.value;
      PayoutExact(b.amount, b.multiplierPct, config.feePct);
      NetIsZeroIff(b.amount, b.multiplierPct, config.feePct);
      var funded := TransferAll(w.bank, sender, env.self, funds);
      var p := ComputePayout(b.amount, b.multiplierPct, config.feePct);
      if p.Some? && funded.Some? {
        ClaimDispatch(env, funded.value, sender, config.feeCollector, b.denom, p.value);
      }
      hide ComputePayout, ClaimSends;
    }
  }

  lemma LockedHolds(st: Storage, id: uint64)
    requires id in st.bounties && !st.bounties[id].claimed
    ensures Locked(st, st.bounties[id].denom) >= st.bounties[id].amount
  {
    var d := st.bounties[id].denom;
    SumTake<uint64, Bounty>(st.bounties, LockedIn(d), id);
    SumNotNegative<uint64, Bounty>(st.bounties - {id}, LockedIn(d));
  }

  /** In a covered world with modest multipliers the money is always there. */
  lemma CoveredClaimSucceedsIff(env: Env, w: World, sender: Addr, id: uint64)
    requires WellFormed(w.st) && Modest(w.st) && Covered(env, w) && sender != env.self
    requires id in w.st.bounties && !w.st.bounties[id].claimed
    ensures var b := w.st.bounties[id];
      Step(env, w, Exec(sender, [], ClaimBounty(id))).1 <==>
        && b.amount * b.multiplierPct < TWO_128
        && (env.zeroOk || (b.amount * b.multiplierPct >= 100 && w.st.config.value.feePct < 100))
  {
    var b := w.st.bounties[id];
    LockedHolds(w.st, id);
    assert Balance(w.bank, env.self, b.denom) >= Locked(w.st, b.denom);
    PercentAtMost(b.amount, b.multiplierPct);
    assert TransferAll(w.bank, sender, env.self, []) == Some(w.bank);
    hide Locked, Covered, Step, WellFormed, TransferAll;
    ClaimSucceedsIff(env, w, sender, [], id);
  }

  // ---------- Exactly when every claim can be paid ----------

  /** Nothing but money can stop the claim of this bounty. */
  predicate Fits(env: Env, config: Config, b: Bounty) {
    && b.amount * b.multiplierPct < TWO_128
    && (env.zeroOk || (b.amount * b.multiplierPct >= 100 && config.feePct < 100))
  }

  ghost predicate AllFit(env: Env, st: Storage)
    requires st.config.Some?
  {
    forall id :: id in st.bounties && !st.bounties[id].claimed ==> Fits(env, st.config.value, st.bounties[id])
  }

  ghost predicate Payable(env: Env, w: World) {
    forall d :: Balance(w.bank, env.self, d) >= Owed(w.st, d)
  }

  function Claimed(st: Storage, id: uint64, claimer: Addr): Storage
    requires id in st.bounties
  {
    st.(bounties := st.bounties[id := st.bounties[id].(claimed := true, claimer := Some(claimer))])
  }

  /** The events claim every unclaimed bounty, each once, in some order. */
  ghost predicate ClaimsAll(st: Storage, es: seq<Event>)
    decreases |es|
  {
    if es == [] then forall id :: id in st.bounties ==> st.bounties[id].claimed
    else
      && es[0].Exec? && es[0].funds == [] && es[0].msg.ClaimBounty?
      && es[0].msg.taskId in st.bounties && !st.bounties[es[0].msg.taskId].claimed
      && ClaimsAll(Claimed(st, es[0].msg.taskId, es[0].sender), es[1..])
  }

  predicate AllGoThrough(env: Env, w: World, es: seq<Event>)
    decreases |es|
  {
    es == [] || (Step(env, w, es[0]).1 && AllGoThrough(env, Step(env, w, es[0]).0, es[1..]))
  }

  lemma NothingOwed(st: Storage, d: Denom)
    requires forall id :: id in st.bounties ==> st.bounties[id].claimed
    ensures Owed(st, d) == 0
  {
    SumZero<uint64, Bounty>(st.bounties, OwedIn(d));
  }

  lemma OwedHolds(st: Storage, id: uint64)
    requires id in st.bounties && !st.bounties[id].claimed
    ensures Owed(st, st.bounties[id].denom) >= Gross(st.bounties[id])
  {
    var d := st.bounties[id].denom;
    SumTake<uint64, Bounty>(st.bounties, OwedIn(d), id);
    SumNotNegative<uint64, Bounty>(st.bounties - {id}, OwedIn(d));
  }

  lemma OwedAfterClaim(st: Storage, id: uint64, claimer: Addr, d: Denom)
    requires id in st.bounties && !st.bounties[id].claimed
    ensures Owed(Claimed(st, id, claimer), d)
      == Owed(st, d) - if st.bounties[id].denom == d then Gross(st.bounties[id]) else 0
  {
    SumPut<uint64, Bounty>(st.bounties, OwedIn(d), id, Claimed(st, id, claimer).bounties[id]);
  }

  /** The contract's balance changed by the cost of claiming b. */
  ghost predicate TookCost(env: Env, w: World, w': World, b: Bounty)
    requires w.st.config.Some?
  {
    forall d :: Balance(w'.bank, env.self, d) ==
      (Balance(w.bank, env.self, d) - if b.denom == d then Cost(env, w.st.config.value, b) else 0)
  }

  /** A claim that goes through takes its cost from the balance. */
  lemma ClaimStep(env: Env, w: World, sender: Addr, id: uint64)
    requires WellFormed(w.st) && sender != env.self
    requires Step(env, w, Exec(sender, [], ClaimBounty(id))).1 && id in w.st.bounties
    ensures var w' := Step(env, w, Exec(sender, [], ClaimBounty(id))).0;
      w'.st == Claimed(w.st, id, sender) && TookCost(env, w, w', w.st.bounties[id])
  {
    NoCoins(w.bank, sender, env.self);
    hide TransferAll, Transfer, Dispatch, Balance, SendsOut, ComputePayout, Cost;
    var b, w' := w.st.bounties[id], Step(env, w, Exec(sender, [], ClaimBounty(id))).0;
    forall d
      ensures Balance(w'.bank, env.self, d)
        == Balance(w.bank, env.self, d) - if b.denom == d then Cost(env, w.st.config.value, b) else 0
    {
      ClaimSendsCost(env, w.st, sender, id, d);
      SendsLeave(env, w.bank, ClaimOutcome(w.st, sender, id).sends, d);
    }
  }

  lemma CostAtMostGross(env: Env, config: Config, b: Bounty)
    ensures Cost(env, config, b) <= Gross(b)
    ensures config.feeCollector != env.self ==> Cost(env, config, b) == Gross(b)
  {
    ProductNotNegative(Gross(b), config.feePct);
  }

  lemma PayableAfterClaim(env: Env, w: World, w': World, id: uint64, sender: Addr)
    requires w.st.config.Some? && id in w.st.bounties && !w.st.bounties[id].claimed
    requires w'.st == Claimed(w.st, id, sender) && TookCost(env, w, w', w.st.bounties[id])
    ensures Payable(env, w) ==> Payable(env, w')
    ensures w.st.config.value.feeCollector != env.self ==> (Payable(env, w') ==> Payable(env, w))
  {
    hide Balance, Owed, Gross, Cost;
    CostAtMostGross(env, w.st.config.value, w.st.bounties[id]);
    forall d
      ensures Balance(w.bank, env.self, d) >= Owed(w.st, d) ==> Balance(w'.bank, env.self, d) >= Owed(w'.st, d)
      ensures w.st.config.value.feeCollector != env.self && Balance(w'.bank, env.self, d) >= Owed(w'.st, d) ==>
        Balance(w.bank, env.self, d) >= Owed(w.st, d)
    {
      OwedAfterClaim(w.st, id, sender, d);
    }
  }

  lemma AllFitAfterClaim(env: Env, st: Storage, id: uint64, claimer: Addr)
    requires st.config.Some? && id in st.bounties && !st.bounties[id].claimed
    ensures AllFit(env, st) <==> Fits(env, st.config.value, st.bounties[id]) && AllFit(env, Claimed(st, id, claimer))
  {
    hide Fits;
    var st' := Claimed(st, id, claimer);
    assert forall other :: other in st.bounties && other != id ==>
      other in st'.bounties && st'.bounties[other] == st.bounties[other];
    if AllFit(env, st') && Fits(env, st.config.value, st.bounties[id]) {
      forall other | other in st.bounties && !st.bounties[other].claimed
        ensures Fits(env, st.config.value, st.bounties[other])
      {
        if other != id { assert other in st'.bounties; }
      }
    }
  }

  /** Every unclaimed bounty can be claimed, in whatever order and with whatever
      multipliers, if none is stopped by its own arithmetic and the balance reaches what
      all of them are owed, in every denomination; and only then, unless the contract
      collects its own fees and so gets a part back on the way. */
  lemma {:induction false} AllClaimsPayIff(env: Env, w: World, es: seq<Event>)
    requires WellFormed(w.st) && Admissible(env, es) && ClaimsAll(w.st, es)
    ensures Payable(env, w) && AllFit(env, w.st) ==> AllGoThrough(env, w, es)
    ensures AllGoThrough(env, w, es) ==>
      AllFit(env, w.st) && (w.st.config.value.feeCollector != env.self ==> Payable(env, w))
    decreases |es|
  {
    if es == [] {
      forall d ensures Owed(w.st, d) == 0 { NothingOwed(w.st, d); }
    } else {
      var e := es[0];
      var id := e.msg.taskId;
      assert e in es && forall x :: x in es[1..] ==> x in es;
      assert e == Exec(e.sender, [], ClaimBounty(id));
      hide Step, Balance, Owed, Gross;
      NoCoins(w.bank, e.sender, env.self);
      ClaimSucceedsIff(env, w, e.sender, [], id);
      if Step(env, w, e).1 {
        var w' := Step(env, w, e).0;
        ClaimStep(env, w, e.sender, id);
        StepKeeps(env, w, e);
        PayableAfterClaim(env, w, w', id, e.sender);
        AllFitAfterClaim(env, w.st, id, e.sender);
        AllClaimsPayIff(env, w', es[1..]);
      } else {
        OwedHolds(w.st, id);
      }
    }
  }

  // ---------- Whoever collects the fees ----------

  function CostIn(env: Env, config: Config, d: Denom): (uint64, Bounty) -> int {
    (id: uint64, b: Bounty) => if !b.claimed && b.denom == d then Cost(env, config, b) else 0
  }

  /** What claims of all unclaimed bounties take away, fees that come back deducted. */
  ghost function CostOwed(env: Env, st: Storage, d: Denom): int
    requires st.config.Some?
  {
    Sum<uint64, Bounty>(st.bounties, CostIn(env, st.config.value, d))
  }

  /** Each unclaimed bounty could be claimed last: beyond what all of them cost there is
      the part of its fee that the contract has to hold before collecting it. */
  ghost predicate Liquid(env: Env, w: World)
    requires w.st.config.Some?
  {
    forall id :: id in w.st.bounties && !w.st.bounties[id].claimed ==> LiquidFor(env, w, w.st.bounties[id])
  }

  ghost predicate LiquidFor(env: Env, w: World, b: Bounty)
    requires w.st.config.Some?
  {
    Balance(w.bank, env.self, b.denom) >= CostOwed(env, w.st, b.denom) + Gross(b) - Cost(env, w.st.config.value, b)
  }

  lemma CostNotNegative(env: Env, config: Config, b: Bounty)
    requires config.feePct <= 100
    ensures Cost(env, config, b) >= 0
  {
    PercentAtMost(Gross(b), config.feePct);
  }

  lemma CostOwedHolds(env: Env, st: Storage, id: uint64)
    requires WellFormed(st) && id in st.bounties && !st.bounties[id].claimed
    ensures CostOwed(env, st, st.bounties[id].denom) >= Cost(env, st.config.value, st.bounties[id])
  {
    var config, d := st.config.value, st.bounties[id].denom;
    forall b ensures Cost(env, config, b) >= 0 { CostNotNegative(env, config, b); }
    hide Cost;
    SumTake<uint64, Bounty>(st.bounties, CostIn(env, config, d), id);
    SumNotNegative<uint64, Bounty>(st.bounties - {id}, CostIn(env, config, d));
  }

  lemma CostOwedAfterClaim(env: Env, st: Storage, id: uint64, claimer: Addr, d: Denom)
    requires st.config.Some? && id in st.bounties && !st.bounties[id].claimed
    ensures CostOwed(env, Claimed(st, id, claimer), d)
      == CostOwed(env, st, d) - if st.bounties[id].denom == d then Cost(env, st.config.value, st.bounties[id]) else 0
  {
    hide Cost;
    SumPut<uint64, Bounty>(st.bounties, CostIn(env, st.config.value, d), id, Claimed(st, id, claimer).bounties[id]);
  }

  /** A claim leaves every other bounty's margin as it was. */
  lemma MarginKept(env: Env, w: World, w': World, id: uint64, claimer: Addr, b: Bounty)
    requires w.st.config.Some? && id in w.st.bounties && !w.st.bounties[id].claimed
    requires w'.st == Claimed(w.st, id, claimer) && TookCost(env, w, w', w.st.bounties[id])
    ensures LiquidFor(env, w', b) <==> LiquidFor(env, w, b)
  {
    hide Balance, Cost, Gross;
    CostOwedAfterClaim(env, w.st, id, claimer, b.denom);
    hide CostOwed;
  }

  /** Claimed in this order, everything goes through when each bounty could come last. */
  lemma {:induction false} LiquidPays(env: Env, w: World, es: seq<Event>)
    requires WellFormed(w.st) && Admissible(env, es) && ClaimsAll(w.st, es)
    requires Liquid(env, w) && AllFit(env, w.st)
    ensures AllGoThrough(env, w, es)
    decreases |es|
  {
    if es != [] {
      var id := FirstClaim(env, w, es);
      hide Step, Balance, Gross, Cost, CostOwed;
      CostOwedHolds(env, w.st, id);
      assert LiquidFor(env, w, w.st.bounties[id]);
      var w' := Step(env, w, es[0]).0;
      ClaimStep(env, w, es[0].sender, id);
      StepKeeps(env, w, es[0]);
      AllFitAfterClaim(env, w.st, id, es[0].sender);
      forall other | other in w'.st.bounties && !w'.st.bounties[other].claimed
        ensures LiquidFor(env, w', w'.st.bounties[other])
      {
        MarginKept(env, w, w', id, es[0].sender, w.st.bounties[other]);
      }
      LiquidPays(env, w', es[1..]);
    }
  }

  /** Exactly when the first claim of an order goes through. */
  lemma FirstClaim(env: Env, w: World, es: seq<Event>) returns (id: uint64)
    requires WellFormed(w.st) && Admissible(env, es) && ClaimsAll(w.st, es) && es != []
    ensures id in w.st.bounties && !w.st.bounties[id].claimed && es[0] == Exec(es[0].sender, [], ClaimBounty(id))
    ensures es[0].sender != env.self && Admissible(env, es[1..])
    ensures ClaimsAll(Claimed(w.st, id, es[0].sender), es[1..])
    ensures var b := w.st.bounties[id];
      Step(env, w, es[0]).1 <==> Fits(env, w.st.config.value, b) && Balance(w.bank, env.self, b.denom) >= Gross(b)
  {
    hide Step, Balance, Gross, WellFormed;
    id := es[0].msg.taskId;
    assert es[0] in es && forall x :: x in es[1..] ==> x in es;
    NoCoins(w.bank, es[0].sender, env.self);
    ClaimSucceedsIff(env, w, es[0].sender, [], id);
  }

  function Unclaimed(st: Storage): set<uint64> {
    set id | id in st.bounties && !st.bounties[id].claimed
  }

  /** The unclaimed bounties in some order with the given one last. */
  lemma {:induction false} OrderEndingWith(st: Storage, id: uint64, claimer: Addr) returns (es: seq<Event>)
    requires id in Unclaimed(st)
    ensures ClaimsAll(st, es) && es != [] && es[|es| - 1] == Exec(claimer, [], ClaimBounty(id))
    ensures forall e :: e in es ==> e.sender == claimer
    decreases |Unclaimed(st)|
  {
    var others := Unclaimed(st) - {id};
    if first :| first in others {
      assert Unclaimed(Claimed(st, first, claimer)) == Unclaimed(st) - {first};
      var rest := OrderEndingWith(Claimed(st, first, claimer), id, claimer);
      es := [Exec(claimer, [], ClaimBounty(first))] + rest;
      assert es[1..] == rest;
    } else {
      es := [Exec(claimer, [], ClaimBounty(id))];
      assert es[1..] == [];
      forall other | other in Claimed(st, id, claimer).bounties
        ensures Claimed(st, id, claimer).bounties[other].claimed
      {
        assert other !in others;
      }
    }
  }

  /** When an order that ends with a bounty goes through, the money for that was there. */
  lemma {:induction false} LastClaimNeeds(env: Env, w: World, es: seq<Event>, id: uint64)
    requires WellFormed(w.st) && Admissible(env, es) && ClaimsAll(w.st, es) && AllGoThrough(env, w, es)
    requires es != [] && es[|es| - 1].Exec? && es[|es| - 1].msg == ClaimBounty(id)
    ensures id in w.st.bounties && !w.st.bounties[id].claimed && LiquidFor(env, w, w.st.bounties[id])
    decreases |es|
  {
    var first := FirstClaim(env, w, es);
    var w' := Step(env, w, es[0]).0;
    assert |es| > 1 ==> es[1..][|es| - 2] == es[|es| - 1] && AllGoThrough(env, w', es[1..]);
    hide Step, Balance, Gross, Cost, Fits, CostOwed, LiquidFor, ClaimsAll, AllGoThrough, WellFormed, TookCost;
    if |es| == 1 {
      assert es[1..] == [];
      OnlyClaimNeeds(env, w, id, es[0].sender);
    } else {
      ClaimStep(env, w, es[0].sender, first);
      StepKeeps(env, w, es[0]);
      LastClaimNeeds(env, w', es[1..], id);
      MarginKept(env, w, w', first, es[0].sender, w.st.bounties[id]);
    }
  }

  lemma OnlyClaimNeeds(env: Env, w: World, id: uint64, claimer: Addr)
    requires w.st.config.Some? && id in w.st.bounties && !w.st.bounties[id].claimed
    requires ClaimsAll(Claimed(w.st, id, claimer), [])
    requires Balance(w.bank, env.self, w.st.bounties[id].denom) >= Gross(w.st.bounties[id])
    ensures LiquidFor(env, w, w.st.bounties[id])
  {
    hide Balance, Gross, Cost;
    var d := w.st.bounties[id].denom;
    NoCostOwed(env, Claimed(w.st, id, claimer), d);
    CostOwedAfterClaim(env, w.st, id, claimer, d);
  }

  lemma NoCostOwed(env: Env, st: Storage, d: Denom)
    requires st.config.Some? && forall id :: id in st.bounties ==> st.bounties[id].claimed
    ensures CostOwed(env, st, d) == 0
  {
    SumZero<uint64, Bounty>(st.bounties, CostIn(env, st.config.value, d));
  }

  /** Whoever collects the fees and whatever the multipliers: every order of claiming all
      unclaimed bounties goes through exactly when none is stopped by its own arithmetic
      and the balance would do for each of them to come last. */
  lemma EveryOrderPaysIff(env: Env, w: World)
    requires WellFormed(w.st)
    ensures (forall es :: Admissible(env, es) && ClaimsAll(w.st, es) ==> AllGoThrough(env, w, es))
      <==> AllFit(env, w.st) && Liquid(env, w)
  {
    hide Admissible, ClaimsAll, AllGoThrough, LiquidFor, Fits;
    if AllFit(env, w.st) && Liquid(env, w) {
      forall es | Admissible(env, es) && ClaimsAll(w.st, es) ensures AllGoThrough(env, w, es) {
        LiquidPays(env, w, es);
      }
    }
    if forall es :: Admissible(env, es) && ClaimsAll(w.st, es) ==> AllGoThrough(env, w, es) {
      forall id | id in w.st.bounties && !w.st.bounties[id].claimed
        ensures Fits(env, w.st.config.value, w.st.bounties[id]) && LiquidFor(env, w, w.st.bounties[id])
      {
        var es := OrderEndingWith(w.st, id, env.self + "x");
        assert Admissible(env, es) by { OneClaimer(env, es, env.self + "x"); }
        AllClaimsPayIff(env, w, es);
        LastClaimNeeds(env, w, es, id);
      }
    }
  }

  lemma OneClaimer(env: Env, es: seq<Event>, claimer: Addr)
    requires claimer != env.self && forall e :: e in es ==> e.sender == claimer
    ensures Admissible(env, es)
  {
  }

  // ---------- A bonus paid out of another bounty ----------

  const UNIT: Denom := "atom"
  const HUNDRED := Coin(UNIT, 100)
  const FUNDERS: Bank := map[("alice", UNIT) := 100, ("bob", UNIT) := 100]

  lemma RunCons(env: Env, w: World, e: Event, es: seq<Event>)
    ensures Run(env, w, [e] + es) == Run(env, Step(env, w, e).0, es)
  {
    assert ([e] + es)[1..] == es;
  }

  lemma FundStep(env: Env, w: World, sender: Addr, id: uint64)
    requires sender != env.self && id !in w.st.bounties && Balance(w.bank, sender, UNIT) >= 100
    ensures var bank := w.bank[(sender, UNIT) := Balance(w.bank, sender, UNIT) - 100];
      Step(env, w, Exec(sender, [HUNDRED], FundBounty(id))) ==
        (World(w.st.(bounties := w.st.bounties[id := Bounty(id, sender, 100, UNIT, 100, false, None)]),
               bank[(env.self, UNIT) := Balance(bank, env.self, UNIT) + 100]), true)
  {
    assert [HUNDRED][1..] == [];
    assert TransferAll(w.bank, sender, env.self, [HUNDRED]) == Transfer(w.bank, sender, env.self, HUNDRED);
  }

  lemma BonusStep(env: Env, w: World, sender: Addr, id: uint64, multiplierPct: uint64)
    requires w.st.config.Some? && sender == w.st.config.value.admin && id in w.st.bounties
    ensures Step(env, w, Exec(sender, [], AddBonus(id, multiplierPct))) ==
      (w.(st := w.st.(bounties := w.st.bounties[id := w.st.bounties[id].(multiplierPct := multiplierPct)])), true)
  {
  }

  lemma DoubledClaimStep(env: Env, w: World, sender: Addr, id: uint64)
    requires WellFormed(w.st) && w.st.config.value.feePct == 0 && sender != env.self
    requires id in w.st.bounties && !w.st.bounties[id].claimed
    requires w.st.bounties[id].amount == 100 && w.st.bounties[id].multiplierPct == 200
    requires Balance(w.bank, env.self, w.st.bounties[id].denom) == 200
    ensures var (w', ok) := Step(env, w, Exec(sender, [], ClaimBounty(id))); var b := w.st.bounties[id];
      && ok && Balance(w'.bank, env.self, b.denom) == 0
      && w'.st == w.st.(bounties := w.st.bounties[id := b.(claimed := true, claimer := Some(sender))])
  {
    var b := w.st.bounties[id];
    assert ComputePayout(b.amount, b.multiplierPct, 0) == Some(Payout(200, 0, 200));
    hide ComputePayout, TransferAll, Transfer, Dispatch, Balance, SendsOut;
    assert TransferAll(w.bank, sender, env.self, []) == Some(w.bank) by { NoCoins(w.bank, sender, env.self); }
    var o := ClaimOutcome(w.st, sender, id);
    ClaimDispatch(env, w.bank, sender, w.st.config.value.feeCollector, b.denom, Payout(200, 0, 200));
    SendsLeave(env, w.bank, o.sends, b.denom);
    ClaimSendsOut(env, sender, w.st.config.value.feeCollector, b.denom, Payout(200, 0, 200), b.denom);
  }

  predicate OpenHundred(st: Storage, id: uint64) {
    id in st.bounties &&
    var b := st.bounties[id]; !b.claimed && b.amount == 100 && b.denom == UNIT && b.multiplierPct == 100
  }

  lemma BonusThenClaim(env: Env, w: World, admin: Addr, claimer: Addr, other: Addr)
    requires WellFormed(w.st) && w.st.config.value.feePct == 0 && w.st.config.value.admin == admin
    requires claimer != env.self && other != env.self
    requires OpenHundred(w.st, 1) && OpenHundred(w.st, 2) && Balance(w.bank, env.self, UNIT) == 200
    ensures var w' := Run(env, w, [Exec(admin, [], AddBonus(1, 200)), Exec(claimer, [], ClaimBounty(1))]);
      && ClaimedFlag(w'.st, 1) == 1 && OpenHundred(w'.st, 2)
      && !Covered(env, w')
      && !Step(env, w', Exec(other, [], ClaimBounty(2))).1
  {
    hide Step, HandlerOutcome, Locked, Balance;
    var bonus, claim := Exec(admin, [], AddBonus(1, 200)), Exec(claimer, [], ClaimBounty(1));
    RunCons(env, w, bonus, [claim]);
    BonusStep(env, w, admin, 1, 200);
    var raised := Step(env, w, bonus).0;
    RunCons(env, raised, claim, []);
    DoubledClaimStep(env, raised, claimer, 1);
    var w' := Step(env, raised, claim).0;
    LockedHolds(w'.st, 2);
    NoCoins(w'.bank, other, env.self);
    ClaimSucceedsIff(env, w', other, [], 2);
  }

  /** Two bounties of 100 are funded, the first gets a bonus of 200 percent and is claimed:
      it goes through, nothing is left, and the second can no longer be claimed. */
  lemma BonusTakesOtherEscrow(zeroOk: bool)
    ensures var env := Env("contract", zeroOk);
      var w0 := World(InstantiateOutcome("admin", "fees", 0, _ => true).st, FUNDERS);
      var es := [
        Exec("alice", [HUNDRED], FundBounty(1)), Exec("bob", [HUNDRED], FundBounty(2)),
        Exec("admin", [], AddBonus(1, 200)), Exec("carol", [], ClaimBounty(1))];
      var w := Run(env, w0, es);
      && Admissible(env, es)
      && ClaimedFlag(w.st, 1) == 1 && OpenHundred(w.st, 2)
      && !Covered(env, w)
      && !Step(env, w, Exec("bob", [], ClaimBounty(2))).1
  {
    hide Step, HandlerOutcome, Covered, Run;
    var env := Env("contract", zeroOk);
    var w0 := World(InstantiateOutcome("admin", "fees", 0, _ => true).st, FUNDERS);
    var e1, e2 := Exec("alice", [HUNDRED], FundBounty(1)), Exec("bob", [HUNDRED], FundBounty(2));
    var e3, e4 := Exec("admin", [], AddBonus(1, 200)), Exec("carol", [], ClaimBounty(1));
    FundStep(env, w0, "alice", 1);
    var w1 := Step(env, w0, e1).0;
    FundStep(env, w1, "bob", 2);
    RunCons(env, w0, e1, [e2, e3, e4]);
    RunCons(env, w1, e2, [e3, e4]);
    assert [e1] + [e2, e3, e4] == [e1, e2, e3, e4] && [e2] + [e3, e4] == [e2, e3, e4];
    BonusThenClaim(env, Step(env, w1, e2).0, "admin", "carol", "bob");
  }
}
