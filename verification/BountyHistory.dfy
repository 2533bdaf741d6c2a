/** What the contract stores after any run from instantiation, read off the events alone:
    who set the fee last, who funded a bounty first, which bonus and which claim it got. */
module BountyHistory {
  import opened Bytes
  import opened BountyContract
  import opened BountyRuns
  import opened BountySolvency
  import opened BountyLedger

  /** An event and the world it met. */
  datatype Met = Met(w: World, e: Event)

  function Log(env: Env, w: World, es: seq<Event>): (log: seq<Met>)
    ensures |log| == |es| && forall i :: 0 <= i < |es| ==> log[i].e == es[i]
    decreases |es|
  {
    if es == [] then [] else [Met(w, es[0])] + Log(env, Step(env, w, es[0]).0, es[1..])
  }

  lemma {:induction false} RunSnoc(env: Env, w: World, es: seq<Event>, e: Event)
    ensures Run(env, w, es + [e]) == Step(env, Run(env, w, es), e).0
    ensures Log(env, w, es + [e]) == Log(env, w, es) + [Met(Run(env, w, es), e)]
    decreases |es|
  {
    if es == [] {
      assert es + [e] == [e] && [e][1..] == [];
    } else {
      hide Step;
      RunSnoc(env, Step(env, w, es[0]).0, es[1..], e);
      assert (es + [e])[1..] == es[1..] + [e];
    }
  }

  // ---------- Configuration ----------

  /** The admin sets a fee of at most 100 and has the coins attached to the message. */
  ghost predicate SetsFee(admin: Addr, m: Met) {
    && m.e.Exec? && m.e.msg.UpdateFee?
    && m.e.sender == admin && m.e.msg.feePct <= 100 && Affords(m.w.bank, admin, m.e.funds)
  }

  /** `fee` is that of the last such event, or the first fee when there is none. */
  ghost predicate FeeAfter(admin: Addr, fee0: uint64, log: seq<Met>, fee: uint64) {
    || (fee == fee0 && forall i :: 0 <= i < |log| ==> !SetsFee(admin, log[i]))
    || exists i :: LastFee(admin, log, i, fee)
  }

  ghost predicate LastFee(admin: Addr, log: seq<Met>, i: nat, fee: uint64) {
    && i < |log| && SetsFee(admin, log[i]) && fee == log[i].e.msg.feePct
    && forall j :: i < j < |log| ==> !SetsFee(admin, log[j])
  }

  lemma FeeSnoc(admin: Addr, fee0: uint64, log: seq<Met>, m: Met, fee: uint64)
    requires FeeAfter(admin, fee0, log, fee)
    ensures !SetsFee(admin, m) ==> FeeAfter(admin, fee0, log + [m], fee)
    ensures SetsFee(admin, m) ==> FeeAfter(admin, fee0, log + [m], m.e.msg.feePct)
  {
    var log' := log + [m];
    if SetsFee(admin, m) {
      assert LastFee(admin, log', |log|, m.e.msg.feePct);
    } else if i :| LastFee(admin, log, i, fee) {
      assert LastFee(admin, log', i, fee);
    }
  }

  lemma ConfigStep(env: Env, w: World, e: Event)
    requires WellFormed(w.st) && e.sender != env.self
    ensures var c, config := w.st.config.value, Step(env, w, e).0.st.config; var m := Met(w, e);
      config == Some(if SetsFee(c.admin, m) then c.(feePct := e.msg.feePct) else c)
  {
    StepGoesIff(env, w, e);
    if Step(env, w, e).1 { StepStores(env, w, e, 0); }
    hide Step, Affords, ClaimGoes;
  }

  /** Admin and fee collector never change; the fee is the last the admin validly set. */
  lemma {:induction false} ConfigIs(env: Env, w: World, es: seq<Event>)
    requires WellFormed(w.st) && Admissible(env, es)
    ensures var c0 := w.st.config.value; var config := Run(env, w, es).st.config;
      && config.Some? && config.value.admin == c0.admin && config.value.feeCollector == c0.feeCollector
      && FeeAfter(c0.admin, c0.feePct, Log(env, w, es), config.value.feePct)
    decreases |es|
  {
    if es != [] {
      var front, e := es[..|es| - 1], es[|es| - 1];
      assert es == front + [e] && e in es && forall x :: x in front ==> x in es;
      hide Step, Run, Log, FeeAfter, SetsFee, StorageEvolves;
      ConfigIs(env, w, front);
      RunSnoc(env, w, front, e);
      RunKeeps(env, w, front);
      var met, c0 := Run(env, w, front), w.st.config.value;
      ConfigStep(env, met, e);
      FeeSnoc(c0.admin, c0.feePct, Log(env, w, front), Met(met, e), met.st.config.value.feePct);
    } else {
      assert Log(env, w, es) == [];
    }
  }

  // ---------- Bounties ----------

  ghost predicate Funds(id: uint64, m: Met) {
    && m.e.Exec? && m.e.msg == FundBounty(id)
    && |m.e.funds| == 1 && Affords(m.w.bank, m.e.sender, m.e.funds)
  }

  ghost predicate SetsBonus(admin: Addr, id: uint64, m: Met) {
    && m.e.Exec? && m.e.msg.AddBonus? && m.e.msg.taskId == id
    && m.e.sender == admin && Affords(m.w.bank, admin, m.e.funds)
  }

  ghost predicate PaysOut(env: Env, id: uint64, m: Met) {
    && m.e.Exec? && m.e.msg == ClaimBounty(id) && m.w.st.config.Some?
    && Affords(m.w.bank, m.e.sender, m.e.funds) && ClaimGoes(env, m.w, m.e.sender, m.e.funds, id)
  }

  ghost predicate FirstFunding(id: uint64, log: seq<Met>, p: nat) {
    p < |log| && Funds(id, log[p]) && forall q :: 0 <= q < p ==> !Funds(id, log[q])
  }

  /** The last bonus set after the funding at p, 100 when there is none. */
  ghost predicate BonusAfter(admin: Addr, id: uint64, log: seq<Met>, p: nat, multiplier: uint64) {
    || (multiplier == 100 && NoBonusSince(admin, id, log, p))
    || exists i :: p < i && LastBonus(admin, id, log, i, multiplier)
  }

  ghost predicate LastBonus(admin: Addr, id: uint64, log: seq<Met>, i: nat, multiplier: uint64) {
    && i < |log| && SetsBonus(admin, id, log[i]) && multiplier == log[i].e.msg.multiplierPct
    && NoBonusSince(admin, id, log, i)
  }

  ghost predicate NoBonusSince(admin: Addr, id: uint64, log: seq<Met>, i: nat) {
    forall j :: i < j < |log| ==> !SetsBonus(admin, id, log[j])
  }

  /** The one who claimed after the funding at p, if anyone did. */
  ghost predicate ClaimAfter(env: Env, id: uint64, log: seq<Met>, p: nat, claimer: Option<Addr>) {
    match claimer
    case None => forall j :: p < j < |log| ==> !PaysOut(env, id, log[j])
    case Some(a) => exists j :: p < j < |log| && PaysOut(env, id, log[j]) && log[j].e.sender == a
  }

  /** The record that the first funding, the last bonus and the claim make up. */
  ghost predicate RecordFrom(env: Env, admin: Addr, id: uint64, log: seq<Met>, p: nat, b: Bounty) {
    && FirstFunding(id, log, p)
    && b.taskId == id && b.funder == log[p].e.sender
    && Coin(b.denom, b.amount) == log[p].e.funds[0]
    && BonusAfter(admin, id, log, p, b.multiplierPct)
    && ClaimAfter(env, id, log, p, b.claimer) && (b.claimed <==> b.claimer.Some?)
  }

  ghost predicate HistoryOf(env: Env, admin: Addr, id: uint64, log: seq<Met>, ob: Option<Bounty>) {
    match ob
    case None => forall p :: 0 <= p < |log| ==> !Funds(id, log[p])
    case Some(b) => exists p :: RecordFrom(env, admin, id, log, p, b)
  }

  function Record(st: Storage, id: uint64): Option<Bounty> {
    if id in st.bounties then Some(st.bounties[id]) else None
  }

  lemma FirstSnoc(id: uint64, log: seq<Met>, m: Met, p: nat)
    requires FirstFunding(id, log, p)
    ensures FirstFunding(id, log + [m], p)
  {
  }

  lemma BonusSnoc(admin: Addr, id: uint64, log: seq<Met>, m: Met, p: nat, multiplier: uint64)
    requires p < |log| && BonusAfter(admin, id, log, p, multiplier)
    ensures SetsBonus(admin, id, m) ==> BonusAfter(admin, id, log + [m], p, m.e.msg.multiplierPct)
    ensures !SetsBonus(admin, id, m) ==> BonusAfter(admin, id, log + [m], p, multiplier)
  {
    var log' := log + [m];
    if SetsBonus(admin, id, m) {
      assert LastBonus(admin, id, log', |log|, m.e.msg.multiplierPct);
    } else if NoBonusSince(admin, id, log, p) && multiplier == 100 {
      assert NoBonusSince(admin, id, log', p);
    } else {
      var i :| p < i && LastBonus(admin, id, log, i, multiplier);
      assert LastBonus(admin, id, log', i, multiplier);
    }
  }

  lemma ClaimSnoc(env: Env, id: uint64, log: seq<Met>, m: Met, p: nat, claimer: Option<Addr>)
    requires p < |log| && ClaimAfter(env, id, log, p, claimer)
    ensures PaysOut(env, id, m) ==> ClaimAfter(env, id, log + [m], p, Some(m.e.sender))
    ensures !PaysOut(env, id, m) ==> ClaimAfter(env, id, log + [m], p, claimer)
  {
    hide PaysOut;
    var log' := log + [m];
    if PaysOut(env, id, m) {
      assert log'[|log|] == m;
    } else if claimer.Some? {
      var j :| p < j < |log| && PaysOut(env, id, log[j]) && log[j].e.sender == claimer.value;
      assert log'[j] == log[j];
    }
  }

  /** What one more event does to a record, in the terms of the history. */
  lemma RecordStep(env: Env, w: World, e: Event, id: uint64)
    requires WellFormed(w.st) && e.sender != env.self
    ensures var b, b' := Record(w.st, id), Record(Step(env, w, e).0.st, id);
      var m, admin := Met(w, e), w.st.config.value.admin;
      && (b.None? ==> b' == if Funds(id, m)
            then Some(Bounty(id, e.sender, e.funds[0].amount, e.funds[0].denom, 100, false, None)) else None)
      && (b.Some? && SetsBonus(admin, id, m) ==>
            b' == Some(b.value.(multiplierPct := e.msg.multiplierPct)) && !PaysOut(env, id, m))
      && (b.Some? && PaysOut(env, id, m) ==> b' == Some(b.value.(claimed := true, claimer := Some(e.sender))))
      && (b.Some? && !SetsBonus(admin, id, m) && !PaysOut(env, id, m) ==> b' == b)
  {
    StepGoesIff(env, w, e);
    if Step(env, w, e).1 { StepStores(env, w, e, id); }
    hide Step, Affords, ClaimGoes;
  }

  lemma HistorySnoc(env: Env, w: World, e: Event, id: uint64, log: seq<Met>)
    requires WellFormed(w.st) && e.sender != env.self
    requires HistoryOf(env, w.st.config.value.admin, id, log, Record(w.st, id))
    ensures HistoryOf(env, w.st.config.value.admin, id, log + [Met(w, e)], Record(Step(env, w, e).0.st, id))
  {
    var admin, m, log' := w.st.config.value.admin, Met(w, e), log + [Met(w, e)];
    var b, b' := Record(w.st, id), Record(Step(env, w, e).0.st, id);
    RecordStep(env, w, e, id);
    hide Step, Record, SetsBonus, PaysOut, BonusAfter, ClaimAfter;
    if b.None? {
      if Funds(id, m) {
        NewRecord(env, admin, id, log, m);
        assert RecordFrom(env, admin, id, log', |log|, b'.value);
      }
    } else {
      var p :| RecordFrom(env, admin, id, log, p, b.value);
      FirstSnoc(id, log, m, p);
      BonusSnoc(admin, id, log, m, p, b.value.multiplierPct);
      ClaimSnoc(env, id, log, m, p, b.value.claimer);
      assert RecordFrom(env, admin, id, log', p, b'.value);
    }
  }

  lemma NewRecord(env: Env, admin: Addr, id: uint64, log: seq<Met>, m: Met)
    requires Funds(id, m) && forall p :: 0 <= p < |log| ==> !Funds(id, log[p])
    ensures FirstFunding(id, log + [m], |log|)
    ensures BonusAfter(admin, id, log + [m], |log|, 100) && ClaimAfter(env, id, log + [m], |log|, None)
  {
  }

  lemma {:induction false} HistoryIs(env: Env, w: World, es: seq<Event>, id: uint64)
    requires WellFormed(w.st) && w.st.bounties == map[] && Admissible(env, es)
    ensures HistoryOf(env, w.st.config.value.admin, id, Log(env, w, es), Record(Run(env, w, es).st, id))
    decreases |es|
  {
    hide Step, HistoryOf, FeeAfter, StorageEvolves, Record, WellFormed;
    if es == [] {
      NoHistory(env, w, id);
    } else {
      var front, e := es[..|es| - 1], es[|es| - 1];
      assert es == front + [e] && e in es;
      hide Run, Log;
      FrontAdmissible(env, front, e);
      HistoryIs(env, w, front, id);
      RunSnoc(env, w, front, e);
      RunKeeps(env, w, front);
      ConfigIs(env, w, front);
      HistorySnoc(env, Run(env, w, front), e, id, Log(env, w, front));
    }
  }

  lemma NoHistory(env: Env, w: World, id: uint64)
    requires w.st.bounties == map[] && WellFormed(w.st)
    ensures HistoryOf(env, w.st.config.value.admin, id, Log(env, w, []), Record(Run(env, w, []).st, id))
  {
  }

  lemma FrontAdmissible(env: Env, front: seq<Event>, e: Event)
    requires Admissible(env, front + [e])
    ensures Admissible(env, front) && e.sender != env.self
  {
    assert (front + [e])[|front|] == e;
    forall x | x in front ensures x in front + [e] { }
  }

  /** The whole storage after any run from instantiation: the instantiator is admin for
      ever, the given collector collects, the fee is the last the admin validly set; a
      bounty is there exactly when someone validly funded it, and its record is made up of
      the first funding, the admin's last bonus since, and the claim since. */
  lemma StorageHistory(
      env: Env, sender: Addr, feeCollector: Addr, feePct: uint64, validAddr: Addr -> bool, bank: Bank, es: seq<Event>)
    requires feePct <= 100 && validAddr(feeCollector) && Admissible(env, es)
    ensures var o := InstantiateOutcome(sender, feeCollector, feePct, validAddr);
      o.Ok? && var w0 := World(o.st, bank); var st := Run(env, w0, es).st;
      && st.config.Some? && st.config.value.admin == sender && st.config.value.feeCollector == feeCollector
      && FeeAfter(sender, feePct, Log(env, w0, es), st.config.value.feePct)
      && forall id :: HistoryOf(env, sender, id, Log(env, w0, es), Record(st, id))
  {
    var w0 := World(InstantiateOutcome(sender, feeCollector, feePct, validAddr).st, bank);
    InstantiateWellFormed(sender, feeCollector, feePct, validAddr);
    ConfigIs(env, w0, es);
    forall id ensures HistoryOf(env, sender, id, Log(env, w0, es), Record(Run(env, w0, es).st, id)) {
      HistoryIs(env, w0, es, id);
    }
  }
}
