/** The contract on its chain: a bank ledger, messages that revert as a whole, and what
    every run of them keeps. */
module BountyRuns {
  import opened Bytes
  import opened BountyContract
  import opened MapSums

  type Bank = map<(Addr, Denom), nat>

  /** The contract's own address, and whether the bank accepts a send of zero coins. */
  datatype Env = Env(self: Addr, zeroOk: bool)

  datatype World = World(st: Storage, bank: Bank)

  /** A message to the contract, or a bank transfer it has no part in sending. */
  datatype Event =
    | Exec(sender: Addr, funds: seq<Coin>, msg: ExecMsg)
    | BankTransfer(sender: Addr, to: Addr, coin: Coin)

  // ---------- Bank ----------

  function Balance(bank: Bank, a: Addr, d: Denom): nat {
    if (a, d) in bank then bank[(a, d)] else 0
  }

  function Transfer(bank: Bank, sender: Addr, to: Addr, coin: Coin): Option<Bank> {
    var have := Balance(bank, sender, coin.denom);
    if have < coin.amount then None
    else
      var debited := bank[(sender, coin.denom) := have - coin.amount];
      Some(debited[(to, coin.denom) := Balance(debited, to, coin.denom) + coin.amount])
  }

  /** The funds attached to a message move first. */
  function TransferAll(bank: Bank, sender: Addr, to: Addr, coins: seq<Coin>): Option<Bank>
    decreases |coins|
  {
    if coins == [] then Some(bank)
    else
      match Transfer(bank, sender, to, coins[0])
      case None => None
      case Some(bank') => TransferAll(bank', sender, to, coins[1..])
  }

  /** The sends a handler emitted, in order; any failure fails the message. */
  function Dispatch(env: Env, bank: Bank, sends: seq<Send>): Option<Bank>
    decreases |sends|
  {
    if sends == [] then Some(bank)
    else if sends[0].coin.amount == 0 && !env.zeroOk then None
    else
      match Transfer(bank, env.self, sends[0].to, sends[0].coin)
      case None => None
      case Some(bank') => Dispatch(env, bank', sends[1..])
  }

  // ---------- Steps ----------

  /** The new world, and whether the event went through; a failed one leaves no trace. */
  function Step(env: Env, w: World, e: Event): (World, bool) {
    match e
    case BankTransfer(sender, to, coin) =>
      (match Transfer(w.bank, sender, to, coin)
       case None => (w, false)
       case Some(bank) => (w.(bank := bank), true))
    case Exec(sender, funds, msg) =>
      match TransferAll(w.bank, sender, env.self, funds)
      case None => (w, false)
      case Some(funded) =>
        match HandlerOutcome(w.st, sender, funds, msg)
        case Err(_) => (w, false)
        case Ok(st, sends) =>
          match Dispatch(env, funded, sends)
          case None => (w, false)
          case Some(bank) => (World(st, bank), true)
  }

  function Run(env: Env, w: World, es: seq<Event>): World
    decreases |es|
  {
    if es == [] then w else Run(env, Step(env, w, es[0]).0, es[1..])
  }

  /** The contract signs nothing and emits no message to itself. */
  predicate Admissible(env: Env, es: seq<Event>) {
    forall e :: e in es ==> e.sender != env.self
  }

  // ---------- What every run keeps ----------

  ghost predicate WellFormed(st: Storage) {
    && st.config.Some? && st.config.value.feePct <= 100
    && forall id :: id in st.bounties ==> st.bounties[id].taskId == id
  }

  lemma InstantiateWellFormed(sender: Addr, feeCollector: Addr, feePct: uint64, validAddr: Addr -> bool)
    ensures InstantiateOutcome(sender, feeCollector, feePct, validAddr).Ok?
      <==> feePct <= 100 && validAddr(feeCollector)
    ensures InstantiateOutcome(sender, feeCollector, feePct, validAddr).Ok? ==>
      WellFormed(InstantiateOutcome(sender, feeCollector, feePct, validAddr).st)
  {
  }

  /** What may become of a record: its funding is fixed, claimed and claimer latch. The
      multiplier may still change, even after the claim. */
  predicate Evolves(b: Bounty, b': Bounty) {
    && b'.taskId == b.taskId && b'.funder == b.funder && b'.amount == b.amount && b'.denom == b.denom
    && (b.claimed ==> b'.claimed && b'.claimer == b.claimer)
    && (b'.claimed && !b.claimed ==> b'.claimer.Some?)
  }

  ghost predicate StorageEvolves(st: Storage, st': Storage) {
    forall id :: id in st.bounties ==> id in st'.bounties && Evolves(st.bounties[id], st'.bounties[id])
  }

  lemma HandlerKeeps(st: Storage, sender: Addr, funds: seq<Coin>, msg: ExecMsg)
    requires WellFormed(st) && HandlerOutcome(st, sender, funds, msg).Ok?
    ensures WellFormed(HandlerOutcome(st, sender, funds, msg).st)
    ensures StorageEvolves(st, HandlerOutcome(st, sender, funds, msg).st)
  {
    hide ComputePayout;
  }

  lemma StepKeeps(env: Env, w: World, e: Event)
    requires WellFormed(w.st)
    ensures WellFormed(Step(env, w, e).0.st) && StorageEvolves(w.st, Step(env, w, e).0.st)
  {
    if e.Exec? && HandlerOutcome(w.st, e.sender, e.funds, e.msg).Ok? {
      HandlerKeeps(w.st, e.sender, e.funds, e.msg);
    }
    hide HandlerOutcome, TransferAll, Dispatch, Transfer;
  }

  /** Records are never removed, their funding never changes, and a claim is final. */
  lemma {:induction false} RunKeeps(env: Env, w: World, es: seq<Event>)
    requires WellFormed(w.st)
    ensures WellFormed(Run(env, w, es).st) && StorageEvolves(w.st, Run(env, w, es).st)
    decreases |es|
  {
    if es != [] {
      hide Step, WellFormed;
      StepKeeps(env, w, es[0]);
      RunKeeps(env, Step(env, w, es[0]).0, es[1..]);
    }
  }

  // ---------- Paid at most once ----------

  function ClaimedFlag(st: Storage, id: uint64): nat {
    if id in st.bounties && st.bounties[id].claimed then 1 else 0
  }

  /** How often the run pays out bounty `id`. */
  function Payments(env: Env, w: World, es: seq<Event>, id: uint64): nat
    decreases |es|
  {
    if es == [] then 0
    else
      var (w', ok) := Step(env, w, es[0]);
      (if ok && es[0].Exec? && es[0].msg == ClaimBounty(id) then 1 else 0) + Payments(env, w', es[1..], id)
  }

  lemma StepPayment(env: Env, w: World, e: Event, id: uint64)
    ensures var (w', ok) := Step(env, w, e);
      ClaimedFlag(w'.st, id) ==
      ClaimedFlag(w.st, id) + if ok && e.Exec? && e.msg == ClaimBounty(id) then 1 else 0
  {
    hide ComputePayout, TransferAll, Dispatch, Transfer;
  }

  /** A bounty is paid exactly as often as its claimed flag was raised: at most once, and
      never if it was claimed at the start. */
  lemma {:induction false} PaidOnce(env: Env, w: World, es: seq<Event>, id: uint64)
    ensures Payments(env, w, es, id) == ClaimedFlag(Run(env, w, es).st, id) - ClaimedFlag(w.st, id)
    ensures Payments(env, w, es, id) <= 1
    decreases |es|
  {
    if es != [] {
      hide Step;
      StepPayment(env, w, es[0], id);
      PaidOnce(env, Step(env, w, es[0]).0, es[1..], id);
    }
  }

  // ---------- Conservation ----------

  function InDenom(d: Denom): ((Addr, Denom), nat) -> int {
    (at: (Addr, Denom), n: nat) => if at.1 == d then n else 0
  }

  ghost function Supply(bank: Bank, d: Denom): int {
    Sum<(Addr, Denom), nat>(bank, InDenom(d))
  }

  lemma TransferConserves(bank: Bank, sender: Addr, to: Addr, coin: Coin, d: Denom)
    requires Transfer(bank, sender, to, coin).Some?
    ensures Supply(Transfer(bank, sender, to, coin).value, d) == Supply(bank, d)
  {
    var have: nat := Balance(bank, sender, coin.denom);
    var debited: Bank := bank[(sender, coin.denom) := have - coin.amount];
    SumPut<(Addr, Denom), nat>(bank, InDenom(d), (sender, coin.denom), have - coin.amount);
    SumPut<(Addr, Denom), nat>(debited, InDenom(d), (to, coin.denom), Balance(debited, to, coin.denom) + coin.amount);
  }

  lemma {:induction false} TransferAllConserves(bank: Bank, sender: Addr, to: Addr, coins: seq<Coin>, d: Denom)
    requires TransferAll(bank, sender, to, coins).Some?
    ensures Supply(TransferAll(bank, sender, to, coins).value, d) == Supply(bank, d)
    decreases |coins|
  {
    if coins != [] {
      hide Transfer, Supply;
      TransferConserves(bank, sender, to, coins[0], d);
      TransferAllConserves(Transfer(bank, sender, to, coins[0]).value, sender, to, coins[1..], d);
    }
  }

  lemma {:induction false} DispatchConserves(env: Env, bank: Bank, sends: seq<Send>, d: Denom)
    requires Dispatch(env, bank, sends).Some?
    ensures Supply(Dispatch(env, bank, sends).value, d) == Supply(bank, d)
    decreases |sends|
  {
    if sends != [] {
      hide Transfer, Supply;
      TransferConserves(bank, env.self, sends[0].to, sends[0].coin, d);
      DispatchConserves(env, Transfer(bank, env.self, sends[0].to, sends[0].coin).value, sends[1..], d);
    }
  }

  lemma StepConserves(env: Env, w: World, e: Event, d: Denom)
    ensures Supply(Step(env, w, e).0.bank, d) == Supply(w.bank, d)
  {
    hide Transfer, TransferAll, Dispatch, Supply, HandlerOutcome;
    match e
    case BankTransfer(sender, to, coin) =>
      if Transfer(w.bank, sender, to, coin).Some? { TransferConserves(w.bank, sender, to, coin, d); }
    case Exec(sender, funds, msg) =>
      var funded := TransferAll(w.bank, sender, env.self, funds);
      var o := HandlerOutcome(w.st, sender, funds, msg);
      if funded.Some? && o.Ok? {
        TransferAllConserves(w.bank, sender, env.self, funds, d);
        if Dispatch(env, funded.value, o.sends).Some? { DispatchConserves(env, funded.value, o.sends, d); }
      }
  }

  /** No run creates or destroys coins of any denomination. */
  lemma {:induction false} RunConserves(env: Env, w: World, es: seq<Event>, d: Denom)
    ensures Supply(Run(env, w, es).bank, d) == Supply(w.bank, d)
    decreases |es|
  {
    if es != [] {
      hide Step, Supply;
      StepConserves(env, w, es[0], d);
      RunConserves(env, Step(env, w, es[0]).0, es[1..], d);
    }
  }
}
