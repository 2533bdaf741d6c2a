/** Where the money goes: exactly when each event goes through, what it does to storage,
    and what it does to every account, over single steps and whole runs. */
module BountyLedger {
  import opened Bytes
  import opened BountyContract
  import opened BountyRuns
  import opened BountySolvency

  // ---------- Coins in motion ----------

  ghost predicate Affords(bank: Bank, a: Addr, coins: seq<Coin>) {
    forall d :: CoinSum(coins, d) <= Balance(bank, a, d)
  }

  lemma TransferMoves(bank: Bank, sender: Addr, to: Addr, coin: Coin, a: Addr, d: Denom)
    requires Transfer(bank, sender, to, coin).Some?
    ensures Balance(Transfer(bank, sender, to, coin).value, a, d) == Balance(bank, a, d)
      + (if a == to && coin.denom == d then coin.amount else 0)
      - (if a == sender && coin.denom == d then coin.amount else 0)
  {
  }

  lemma AffordsRest(bank: Bank, bank': Bank, a: Addr, coins: seq<Coin>)
    requires coins != [] && Balance(bank, a, coins[0].denom) >= coins[0].amount
    requires forall d :: Balance(bank', a, d) == Balance(bank, a, d) - CoinSum([coins[0]], d)
    ensures Affords(bank', a, coins[1..]) <==> Affords(bank, a, coins)
  {
    hide Balance;
    forall d ensures CoinSum(coins, d) == CoinSum([coins[0]], d) + CoinSum(coins[1..], d) {
      assert CoinSum([coins[0]][1..], d) == 0;
    }
    hide CoinSum;
    forall d ensures CoinSum(coins[1..], d) <= Balance(bank', a, d) <==> CoinSum(coins, d) <= Balance(bank, a, d) {
      assert Balance(bank', a, d) == Balance(bank, a, d) - CoinSum([coins[0]], d);
    }
  }

  lemma CoinSumOne(coin: Coin, d: Denom)
    ensures CoinSum([coin], d) == if coin.denom == d then coin.amount else 0
  {
    assert [coin][1..] == [];
  }

  /** Attached funds move exactly when the sender has their sum in every denomination. */
  lemma {:induction false} FundsMoveIff(bank: Bank, sender: Addr, to: Addr, coins: seq<Coin>)
    requires sender != to
    ensures TransferAll(bank, sender, to, coins).Some? <==> Affords(bank, sender, coins)
    decreases |coins|
  {
    if coins != [] {
      var moved := Transfer(bank, sender, to, coins[0]);
      if moved.Some? {
        forall d ensures Balance(moved.value, sender, d) == Balance(bank, sender, d) - CoinSum([coins[0]], d) {
          TransferMoves(bank, sender, to, coins[0], sender, d);
          CoinSumOne(coins[0], d);
        }
        FundsMoveIff(moved.value, sender, to, coins[1..]);
        AffordsRest(bank, moved.value, sender, coins);
      } else {
        assert CoinSum(coins, coins[0].denom) >= coins[0].amount;
      }
    }
  }

  lemma {:induction false} FundsMove(bank: Bank, sender: Addr, to: Addr, coins: seq<Coin>, a: Addr, d: Denom)
    requires TransferAll(bank, sender, to, coins).Some?
    ensures Balance(TransferAll(bank, sender, to, coins).value, a, d) == Balance(bank, a, d)
      + (if a == to then CoinSum(coins, d) else 0) - (if a == sender then CoinSum(coins, d) else 0)
    decreases |coins|
  {
    if coins != [] {
      TransferMoves(bank, sender, to, coins[0], a, d);
      hide Transfer, Balance;
      FundsMove(Transfer(bank, sender, to, coins[0]).value, sender, to, coins[1..], a, d);
    }
  }

  /** What the sends bring to an address. */
  function SendsTo(sends: seq<Send>, a: Addr, d: Denom): nat {
    if sends == [] then 0
    else
      (if sends[0].to == a && sends[0].coin.denom == d then sends[0].coin.amount else 0) + SendsTo(sends[1..], a, d)
  }

  function SendSum(sends: seq<Send>, d: Denom): nat {
    if sends == [] then 0
    else (if sends[0].coin.denom == d then sends[0].coin.amount else 0) + SendSum(sends[1..], d)
  }

  lemma {:induction false} SendsMove(env: Env, bank: Bank, sends: seq<Send>, a: Addr, d: Denom)
    requires Dispatch(env, bank, sends).Some?
    ensures Balance(Dispatch(env, bank, sends).value, a, d)
      == Balance(bank, a, d) + SendsTo(sends, a, d) - if a == env.self then SendSum(sends, d) else 0
    decreases |sends|
  {
    if sends != [] {
      TransferMoves(bank, env.self, sends[0].to, sends[0].coin, a, d);
      hide Transfer, Balance;
      SendsMove(env, Transfer(bank, env.self, sends[0].to, sends[0].coin).value, sends[1..], a, d);
    }
  }

  lemma ClaimSendsTo(sender: Addr, feeCollector: Addr, denom: Denom, p: Payout, a: Addr, d: Denom)
    ensures SendsTo(ClaimSends(sender, feeCollector, denom, p), a, d)
      == if d != denom then 0 else (if a == sender then p.net else 0) + (if a == feeCollector then p.fee else 0)
    ensures SendSum(ClaimSends(sender, feeCollector, denom, p), d) == if d != denom then 0 else p.net + p.fee
  {
    var fee := Send(feeCollector, Coin(denom, p.fee));
    var sends := ClaimSends(sender, feeCollector, denom, p);
    assert [fee][1..] == [];
    assert SendsTo([fee], a, d) == if d == denom && a == feeCollector then p.fee else 0;
    assert SendSum([fee], d) == if d == denom then p.fee else 0;
    assert sends[1..] == if p.fee == 0 then [] else [fee];
  }

  // ---------- Exactly when an event goes through, and what it stores ----------

  function FeeOf(config: Config, b: Bounty): nat {
    ProductNotNegative(Gross(b), config.feePct);
    Gross(b) * config.feePct / 100
  }

  /** A claim of an unclaimed bounty, its money in place. */
  ghost predicate ClaimGoes(env: Env, w: World, sender: Addr, funds: seq<Coin>, id: uint64)
    requires w.st.config.Some?
  {
    id in w.st.bounties &&
    var b := w.st.bounties[id];
    && !b.claimed && Fits(env, w.st.config.value, b)
    && Balance(w.bank, env.self, b.denom) + CoinSum(funds, b.denom) >= Gross(b)
  }

  /** The condition for each kind of event, apart from the coins the sender must have. */
  ghost predicate Goes(env: Env, w: World, e: Event)
    requires w.st.config.Some?
  {
    match e
    case BankTransfer(sender, _, coin) => coin.amount <= Balance(w.bank, sender, coin.denom)
    case Exec(sender, funds, msg) =>
      && Affords(w.bank, sender, funds)
      && match msg
         case FundBounty(id) => |funds| == 1 && id !in w.st.bounties
         case ClaimBounty(id) => ClaimGoes(env, w, sender, funds, id)
         case UpdateFee(feePct) => sender == w.st.config.value.admin && feePct <= 100
         case AddBonus(id, _) => sender == w.st.config.value.admin && id in w.st.bounties
  }

  /** The record of a bounty that an event which goes through leaves. */
  function RecordAfter(st: Storage, e: Event, id: uint64): Option<Bounty> {
    var was := if id in st.bounties then Some(st.bounties[id]) else None;
    match e
    case Exec(sender, funds, FundBounty(x)) =>
      if x == id && |funds| == 1
      then Some(Bounty(id, sender, funds[0].amount, funds[0].denom, 100, false, None)) else was
    case Exec(sender, _, ClaimBounty(x)) =>
      if x == id && was.Some? then Some(was.value.(claimed := true, claimer := Some(sender))) else was
    case Exec(_, _, AddBonus(x, m)) =>
      if x == id && was.Some? then Some(was.value.(multiplierPct := m)) else was
    case _ => was
  }

  /** Exactly when each error is the answer. */
  lemma Refusals(st: Storage, sender: Addr, funds: seq<Coin>, msg: ExecMsg)
    requires WellFormed(st)
    ensures var o := HandlerOutcome(st, sender, funds, msg); var admin := st.config.value.admin;
      match msg
      case FundBounty(id) =>
        && (o == Err(NoFunds) <==> |funds| == 0)
        && (o == Err(MultipleDenoms) <==> |funds| > 1)
        && (o == Err(BountyAlreadyExists) <==> |funds| == 1 && id in st.bounties)
        && (o.Ok? <==> |funds| == 1 && id !in st.bounties)
      case ClaimBounty(id) =>
        && (o == Err(BountyNotFound) <==> id !in st.bounties)
        && (o == Err(BountyAlreadyClaimed) <==> id in st.bounties && st.bounties[id].claimed)
        && (id in st.bounties && !st.bounties[id].claimed ==>
              var fits := st.bounties[id].amount * st.bounties[id].multiplierPct < TWO_128;
              if fits then o.Ok? else o == Err(Overflow))
      case UpdateFee(feePct) =>
        && (o == Err(Unauthorized) <==> sender != admin)
        && (o == Err(InvalidFee) <==> sender == admin && feePct > 100)
        && (o.Ok? <==> sender == admin && feePct <= 100)
      case AddBonus(id, _) =>
        && (o == Err(Unauthorized) <==> sender != admin)
        && (o == Err(BountyNotFound) <==> sender == admin && id !in st.bounties)
        && (o.Ok? <==> sender == admin && id in st.bounties)
  {
    if msg.ClaimBounty? && msg.taskId in st.bounties {
      var b := st.bounties[msg.taskId];
      PayoutExact(b.amount, b.multiplierPct, st.config.value.feePct);
    }
    hide ComputePayout;
  }

  lemma InstantiateAnswers(sender: Addr, feeCollector: Addr, feePct: uint64, validAddr: Addr -> bool)
    ensures var o := InstantiateOutcome(sender, feeCollector, feePct, validAddr);
      && (o == Err(InvalidFee) <==> feePct > 100)
      && (o == Err(InvalidAddress) <==> feePct <= 100 && !validAddr(feeCollector))
      && (o.Ok? <==> feePct <= 100 && validAddr(feeCollector))
      && (o.Ok? ==> o.st == Storage(Some(Config(sender, feeCollector, feePct)), map[]) && o.sends == [])
  {
  }

  lemma ExecGoesIff(env: Env, w: World, sender: Addr, funds: seq<Coin>, msg: ExecMsg)
    requires WellFormed(w.st) && sender != env.self && !msg.ClaimBounty?
    ensures Step(env, w, Exec(sender, funds, msg)).1 <==> Goes(env, w, Exec(sender, funds, msg))
  {
    FundsMoveIff(w.bank, sender, env.self, funds);
    hide TransferAll, Affords;
  }

  lemma ClaimGoesIff(env: Env, w: World, sender: Addr, funds: seq<Coin>, id: uint64)
    requires WellFormed(w.st) && sender != env.self
    ensures Step(env, w, Exec(sender, funds, ClaimBounty(id))).1 <==> Goes(env, w, Exec(sender, funds, ClaimBounty(id)))
  {
    FundsMoveIff(w.bank, sender, env.self, funds);
    ClaimSucceedsIff(env, w, sender, funds, id);
    if TransferAll(w.bank, sender, env.self, funds).Some? && id in w.st.bounties {
      FundsMove(w.bank, sender, env.self, funds, env.self, w.st.bounties[id].denom);
    }
    hide Step, TransferAll, Affords, Balance, CoinSum;
  }

  /** An event goes through exactly under the listed condition; otherwise nothing changes. */
  lemma StepGoesIff(env: Env, w: World, e: Event)
    requires WellFormed(w.st) && e.sender != env.self
    ensures Step(env, w, e).1 <==> Goes(env, w, e)
    ensures !Step(env, w, e).1 ==> Step(env, w, e).0 == w
  {
    match e
    case BankTransfer(_, _, _) =>
    case Exec(sender, funds, msg) =>
      if msg.ClaimBounty? {
        ClaimGoesIff(env, w, sender, funds, msg.taskId);
      } else {
        ExecGoesIff(env, w, sender, funds, msg);
      }
      hide Goes, TransferAll, Dispatch, HandlerOutcome;
  }

  /** What an event that goes through stores: the fee only by UpdateFee, the other
      configuration never, and each bounty's record as listed. */
  lemma StepStores(env: Env, w: World, e: Event, id: uint64)
    requires w.st.config.Some? && Step(env, w, e).1
    ensures var st' := Step(env, w, e).0.st;
      && st'.config == Some(if e.Exec? && e.msg.UpdateFee?
                            then w.st.config.value.(feePct := e.msg.feePct) else w.st.config.value)
      && (if id in st'.bounties then Some(st'.bounties[id]) else None) == RecordAfter(w.st, e, id)
  {
    hide ComputePayout, TransferAll, Transfer, Dispatch;
  }

  // ---------- What a step does to every account ----------

  /** The coins the sender of an event moves. */
  function Moved(env: Env, e: Event, a: Addr, d: Denom): int {
    match e
    case BankTransfer(sender, to, coin) =>
      if coin.denom != d then 0
      else (if a == to then coin.amount else 0) - (if a == sender then coin.amount else 0)
    case Exec(sender, funds, _) =>
      (if a == env.self then CoinSum(funds, d) else 0) - (if a == sender then CoinSum(funds, d) else 0)
  }

  /** The bounty a claim pays out. */
  function Claims(st: Storage, e: Event): Option<Bounty> {
    if e.Exec? && e.msg.ClaimBounty? && e.msg.taskId in st.bounties then Some(st.bounties[e.msg.taskId]) else None
  }

  /** The claimer's share: the gross less the fee. */
  function NetTo(st: Storage, e: Event, a: Addr, d: Denom): int
    requires st.config.Some?
  {
    var b := Claims(st, e);
    if b.Some? && b.value.denom == d && a == e.sender then Gross(b.value) - FeeOf(st.config.value, b.value) else 0
  }

  function FeeTo(st: Storage, e: Event, a: Addr, d: Denom): int
    requires st.config.Some?
  {
    var b := Claims(st, e);
    if b.Some? && b.value.denom == d && a == st.config.value.feeCollector then FeeOf(st.config.value, b.value) else 0
  }

  function GrossFrom(env: Env, st: Storage, e: Event, a: Addr, d: Denom): int {
    var b := Claims(st, e);
    if b.Some? && b.value.denom == d && a == env.self then Gross(b.value) else 0
  }

  lemma ClaimMoves(env: Env, w: World, sender: Addr, funds: seq<Coin>, id: uint64, a: Addr, d: Denom)
    requires WellFormed(w.st) && sender != env.self && Step(env, w, Exec(sender, funds, ClaimBounty(id))).1
    ensures var e := Exec(sender, funds, ClaimBounty(id));
      Balance(Step(env, w, e).0.bank, a, d) == Balance(w.bank, a, d) + Moved(env, e, a, d)
        + NetTo(w.st, e, a, d) + FeeTo(w.st, e, a, d) - GrossFrom(env, w.st, e, a, d)
  {
    hide TransferAll, Dispatch, Balance, CoinSum;
    FundsMove(w.bank, sender, env.self, funds, a, d);
    var funded := TransferAll(w.bank, sender, env.self, funds).value;
    var b, config := w.st.bounties[id], w.st.config.value;
    PayoutExact(b.amount, b.multiplierPct, config.feePct);
    var p := ComputePayout(b.amount, b.multiplierPct, config.feePct).value;
    hide ComputePayout;
    SendsMove(env, funded, ClaimSends(sender, config.feeCollector, b.denom, p), a, d);
    ClaimSendsTo(sender, config.feeCollector, b.denom, p, a, d);
  }

  /** An event that goes through changes every account by exactly what its sender moves;
      a claim moreover pays the claimer the net and the fee collector the fee, both if
      they are one, out of the contract. */
  lemma StepBalance(env: Env, w: World, e: Event, a: Addr, d: Denom)
    requires WellFormed(w.st) && e.sender != env.self && Step(env, w, e).1
    ensures Balance(Step(env, w, e).0.bank, a, d) == Balance(w.bank, a, d) + Moved(env, e, a, d)
      + NetTo(w.st, e, a, d) + FeeTo(w.st, e, a, d) - GrossFrom(env, w.st, e, a, d)
  {
    match e
    case BankTransfer(sender, to, coin) =>
      TransferMoves(w.bank, sender, to, coin, a, d);
      hide Transfer, Balance;
    case Exec(sender, funds, msg) =>
      if msg.ClaimBounty? {
        ClaimMoves(env, w, sender, funds, msg.taskId, a, d);
      } else {
        FundsMove(w.bank, sender, env.self, funds, a, d);
        hide TransferAll, Balance, CoinSum;
      }
  }

  // ---------- Whole runs ----------

  /** The sum of what the sender moved over the events that went through. */
  function AllMoved(env: Env, w: World, es: seq<Event>, a: Addr, d: Denom): int
    decreases |es|
  {
    if es == [] then 0
    else
      var (w', ok) := Step(env, w, es[0]);
      (if ok then Moved(env, es[0], a, d) else 0) + AllMoved(env, w', es[1..], a, d)
  }

  /** The nets of the address's own claims, and the fees of all claims. */
  ghost function Nets(env: Env, w: World, es: seq<Event>, a: Addr, d: Denom): int
    decreases |es|
  {
    if es == [] then 0
    else
      var (w', ok) := Step(env, w, es[0]);
      (if ok && w.st.config.Some? then NetTo(w.st, es[0], a, d) else 0) + Nets(env, w', es[1..], a, d)
  }

  ghost function Fees(env: Env, w: World, es: seq<Event>, a: Addr, d: Denom): int
    decreases |es|
  {
    if es == [] then 0
    else
      var (w', ok) := Step(env, w, es[0]);
      (if ok && w.st.config.Some? then FeeTo(w.st, es[0], a, d) else 0) + Fees(env, w', es[1..], a, d)
  }

  /** Over every run, what an address other than the contract has is what it had, what it
      and others moved, the nets of its own claims, and the fees if it is the collector. */
  lemma {:induction false} RunBalance(env: Env, w: World, es: seq<Event>, a: Addr, d: Denom)
    requires WellFormed(w.st) && Admissible(env, es) && a != env.self
    ensures Balance(Run(env, w, es).bank, a, d)
      == Balance(w.bank, a, d) + AllMoved(env, w, es, a, d) + Nets(env, w, es, a, d) + Fees(env, w, es, a, d)
    decreases |es|
  {
    if es != [] {
      assert es[0] in es && forall e :: e in es[1..] ==> e in es;
      var (w', ok) := Step(env, w, es[0]);
      if ok { StepBalance(env, w, es[0], a, d); } else { StepGoesIff(env, w, es[0]); }
      StepKeeps(env, w, es[0]);
      hide Step, Balance, Moved, NetTo, FeeTo, Goes;
      RunBalance(env, w', es[1..], a, d);
    }
  }
}
