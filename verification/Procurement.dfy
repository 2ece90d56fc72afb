/** Lots, quotes and the award operation, with the foreign keys' CASCADE, RESTRICT and SET NULL effects. */
module Procurement {
  import opened Domain

  type LotId = nat
  type QuoteId = nat
  type SupplierId = nat

  datatype LotStatus = Draft | Tendering | LotAwarded | LotCancelled | LotCompleted
  datatype QuoteStatus = Received | Shortlisted | Rejected | Awarded

  datatype Lot = Lot(objectId: ObjectId, status: LotStatus, awardedQuote: Option<QuoteId>, archived: bool)
  datatype Quote = Quote(lot: LotId, supplier: SupplierId, amount: nat, status: QuoteStatus)

  datatype Market = Market(lots: map<LotId, Lot>, quotes: map<QuoteId, Quote>, suppliers: map<SupplierId, ObjectId>)

  /** A patch field: left out, sent as null, or sent with a value. */
  datatype Field<T> = Absent | Null | Value(v: T)

  datatype Outcome =
    | Ok
    | NotFound
    | ScopeError
    | StatusForbidden
    | AwardConflict
    | DeleteForbidden
    | IntegrityError

  datatype Op =
    | CreateLot(lot: LotId, objectId: ObjectId, lotStatus: LotStatus)
    | UpdateLot(lot: LotId, newLotStatus: Field<LotStatus>)
    | ArchiveLot(lot: LotId)
    | DeleteLot(lot: LotId)
    | CreateSupplier(supplier: SupplierId, objectId: ObjectId)
    | DeleteSupplier(supplier: SupplierId)
    | CreateQuote(quote: QuoteId, lot: LotId, supplier: SupplierId, amount: nat, status: QuoteStatus)
    | UpdateQuote(quote: QuoteId, newStatus: Field<QuoteStatus>, newAmount: Field<nat>)
    | DeleteQuote(quote: QuoteId)
    | AwardQuote(lot: LotId, quote: QuoteId)

  // ---- Row effects ----

  /** ON DELETE CASCADE of quotes.lot_id. */
  function QuotesWithoutLot(quotes: map<QuoteId, Quote>, lot: LotId): map<QuoteId, Quote> {
    map q | q in quotes && quotes[q].lot != lot :: quotes[q]
  }

  /** ON DELETE SET NULL of lots.awarded_quote_id. */
  function LotsWithoutQuote(lots: map<LotId, Lot>, quote: QuoteId): map<LotId, Lot> {
    map l | l in lots :: if lots[l].awardedQuote == Some(quote) then lots[l].(awardedQuote := None) else lots[l]
  }

  ghost predicate OtherAwarded(quotes: map<QuoteId, Quote>, lot: LotId, quote: QuoteId) {
    exists q :: q in quotes && q != quote && quotes[q].lot == lot && quotes[q].status == Awarded
  }

  ghost predicate InUse(quotes: map<QuoteId, Quote>, supplier: SupplierId) {
    exists q :: q in quotes && quotes[q].supplier == supplier
  }

  predicate AlreadyAwarded(s: Market, lot: LotId, quote: QuoteId)
    requires quote in s.quotes && lot in s.lots
  {
    && s.quotes[quote].status == Awarded
    && s.lots[lot].awardedQuote == Some(quote)
    && s.lots[lot].status == LotAwarded
  }

  predicate AwardStands(s: Market, quote: QuoteId)
    requires quote in s.quotes
  {
    var lot := s.quotes[quote].lot;
    && s.quotes[quote].status == Awarded
    && lot in s.lots
    && s.lots[lot].awardedQuote == Some(quote)
    && s.lots[lot].status != LotCancelled
  }

  function PatchedQuote(q: Quote, status: Field<QuoteStatus>, amount: Field<nat>): Quote {
    q.(status := if status.Value? then status.v else q.status, amount := if amount.Value? then amount.v else q.amount)
  }

  ghost function Awarding(s: Market, lot: LotId, quote: QuoteId): (Market, Outcome) {
    if quote !in s.quotes || s.quotes[quote].lot != lot || lot !in s.lots then (s, NotFound)
    else if AlreadyAwarded(s, lot, quote) then (s, Ok)
    else if OtherAwarded(s.quotes, lot, quote) then (s, AwardConflict)
    else
      (s.(quotes := s.quotes[quote := s.quotes[quote].(status := Awarded)],
          lots := s.lots[lot := s.lots[lot].(awardedQuote := Some(quote), status := LotAwarded)]),
       Ok)
  }

  ghost function Step(s: Market, op: Op): (Market, Outcome) {
    match op
    case CreateLot(l, objectId, status) =>
      if l in s.lots then (s, IntegrityError)
      else (s.(lots := s.lots[l := Lot(objectId, status, None, false)]), Ok)
    case UpdateLot(l, status) =>
      if l !in s.lots then (s, NotFound)
      else if status.Null? then (s, IntegrityError)
      else (s.(lots := s.lots[l := s.lots[l].(status := if status.Value? then status.v else s.lots[l].status)]), Ok)
    case ArchiveLot(l) =>
      if l !in s.lots then (s, NotFound) else (s.(lots := s.lots[l := s.lots[l].(archived := true)]), Ok)
    case DeleteLot(l) =>
      if l !in s.lots then (s, NotFound)
      else (s.(lots := s.lots - {l}, quotes := QuotesWithoutLot(s.quotes, l)), Ok)
    case CreateSupplier(p, objectId) =>
      if p in s.suppliers then (s, IntegrityError) else (s.(suppliers := s.suppliers[p := objectId]), Ok)
    case DeleteSupplier(p) =>
      if p !in s.suppliers then (s, NotFound)
      else if InUse(s.quotes, p) then (s, IntegrityError)
      else (s.(suppliers := s.suppliers - {p}), Ok)
    case CreateQuote(q, l, p, amount, status) =>
      if l !in s.lots then (s, NotFound)
      else if p !in s.suppliers || s.suppliers[p] != s.lots[l].objectId then (s, ScopeError)
      else if status == Awarded then (s, StatusForbidden)
      else if q in s.quotes then (s, IntegrityError)
      else (s.(quotes := s.quotes[q := Quote(l, p, amount, status)]), Ok)
    case UpdateQuote(q, status, amount) =>
      if q !in s.quotes then (s, NotFound)
      else if status == Value(Awarded) && s.quotes[q].status != Awarded then (s, StatusForbidden)
      else if status.Null? || amount.Null? then (s, IntegrityError)
      else (s.(quotes := s.quotes[q := PatchedQuote(s.quotes[q], status, amount)]), Ok)
    case DeleteQuote(q) =>
      if q !in s.quotes then (s, NotFound)
      else if AwardStands(s, q) then (s, DeleteForbidden)
      else (s.(quotes := s.quotes - {q}, lots := LotsWithoutQuote(s.lots, q)), Ok)
    case AwardQuote(l, q) => Awarding(s, l, q)
  }

  // ---- The services ----

  class MarketStore {
    var lots: map<LotId, Lot>
    var quotes: map<QuoteId, Quote>
    var suppliers: map<SupplierId, ObjectId>

    constructor ()
      ensures State() == Market(map[], map[], map[])
    {
      lots, quotes, suppliers := map[], map[], map[];
    }

    ghost function State(): Market
      reads this
    {
      Market(lots, quotes, suppliers)
    }

    method CreateQuote(id: QuoteId, lotId: LotId, supplierId: SupplierId, amount: nat, status: QuoteStatus) returns (r: Outcome)
      modifies this`quotes
      ensures (State(), r) == Step(old(State()), Op.CreateQuote(id, lotId, supplierId, amount, status))
    {
      if lotId !in lots {
        return NotFound;
      }
      if supplierId !in suppliers {
        return ScopeError;
      }
      if suppliers[supplierId] != lots[lotId].objectId {
        return ScopeError;
      }
      if status == Awarded {
        return StatusForbidden;
      }
      if id in quotes {
        return IntegrityError;
      }
      quotes := quotes[id := Quote(lotId, supplierId, amount, status)];
      r := Ok;
    }

    method UpdateQuote(id: QuoteId, status: Field<QuoteStatus>, amount: Field<nat>) returns (r: Outcome)
      modifies this`quotes
      ensures (State(), r) == Step(old(State()), Op.UpdateQuote(id, status, amount))
    {
      if id !in quotes {
        return NotFound;
      }
      var quote := quotes[id];
      if status == Value(Awarded) && quote.status != Awarded {
        return StatusForbidden;
      }
      if status.Null? || amount.Null? {
        return IntegrityError;
      }
      if status.Value? {
        quote := quote.(status := status.v);
      }
      if amount.Value? {
        quote := quote.(amount := amount.v);
      }
      quotes := quotes[id := quote];
      r := Ok;
    }

    method DeleteQuote(id: QuoteId) returns (r: Outcome)
      modifies this`quotes, this`lots
      ensures (State(), r) == Step(old(State()), Op.DeleteQuote(id))
    {
      if id !in quotes {
        return NotFound;
      }
      var quote := quotes[id];
      if quote.status == Awarded && quote.lot in lots {
        var lot := lots[quote.lot];
        if lot.awardedQuote == Some(id) && lot.status != LotCancelled {
          return DeleteForbidden;
        }
      }
      quotes := quotes - {id};
      lots := LotsWithoutQuote(lots, id);
      r := Ok;
    }

    method AwardQuote(lotId: LotId, quoteId: QuoteId) returns (r: Outcome)
      modifies this`quotes, this`lots
      ensures (State(), r) == Step(old(State()), Op.AwardQuote(lotId, quoteId))
    {
      if quoteId !in quotes || quotes[quoteId].lot != lotId {
        return NotFound;
      }
      if lotId !in lots {
        return NotFound;
      }
      var quote, lot := quotes[quoteId], lots[lotId];
      if quote.status == Awarded && lot.awardedQuote == Some(quoteId) && lot.status == LotAwarded {
        return Ok;
      }
      var existing := set q | q in quotes && quotes[q].lot == lotId && quotes[q].status == Awarded && q != quoteId;
      if existing != {} {
        var other :| other in existing;
        return AwardConflict;
      }
      assert !OtherAwarded(quotes, lotId, quoteId) by {
        assert forall q :: q in quotes && quotes[q].lot == lotId && quotes[q].status == Awarded && q != quoteId ==> q in existing;
      }
      quotes := quotes[quoteId := quote.(status := Awarded)];
      lots := lots[lotId := lot.(awardedQuote := Some(quoteId), status := LotAwarded)];
      r := Ok;
    }

    method CreateLot(id: LotId, objectId: ObjectId, status: LotStatus) returns (r: Outcome)
      modifies this`lots
      ensures (State(), r) == Step(old(State()), Op.CreateLot(id, objectId, status))
    {
      if id in lots {
        return IntegrityError;
      }
      lots := lots[id := Lot(objectId, status, None, false)];
      r := Ok;
    }

    method UpdateLot(id: LotId, status: Field<LotStatus>) returns (r: Outcome)
      modifies this`lots
      ensures (State(), r) == Step(old(State()), Op.UpdateLot(id, status))
    {
      if id !in lots {
        return NotFound;
      }
      if status.Null? {
        return IntegrityError;
      }
      var lot := lots[id];
      if status.Value? {
        lot := lot.(status := status.v);
      }
      lots := lots[id := lot];
      r := Ok;
    }

    method DeleteLot(id: LotId) returns (r: Outcome)
      modifies this`lots, this`quotes
      ensures (State(), r) == Step(old(State()), Op.DeleteLot(id))
    {
      if id !in lots {
        return NotFound;
      }
      lots := lots - {id};
      quotes := QuotesWithoutLot(quotes, id);
      r := Ok;
    }
  }

  // ---- Invariant ----

  /** An awarded quote is the one its lot points to; a pointer names a quote of that lot; quote,
      supplier and lot belong to one object. */
  ghost predicate Inv(s: Market) {
    && (forall q :: q in s.quotes ==> QuoteInv(s, q))
    && (forall l :: l in s.lots && s.lots[l].awardedQuote.Some? ==> PointerInv(s, l))
  }

  predicate QuoteInv(s: Market, q: QuoteId)
    requires q in s.quotes
  {
    var quote := s.quotes[q];
    && quote.lot in s.lots
    && quote.supplier in s.suppliers
    && s.suppliers[quote.supplier] == s.lots[quote.lot].objectId
    && (quote.status == Awarded ==> s.lots[quote.lot].awardedQuote == Some(q))
  }

  predicate PointerInv(s: Market, l: LotId)
    requires l in s.lots && s.lots[l].awardedQuote.Some?
  {
    s.lots[l].awardedQuote.value in s.quotes && s.quotes[s.lots[l].awardedQuote.value].lot == l
  }

  /** The step of every call keeps the invariant. */
  lemma StepKeepsInv(s: Market, op: Op)
    requires Inv(s)
    ensures Inv(Step(s, op).0)
  {
    var after := Step(s, op).0;
    forall q | q in after.quotes ensures QuoteInv(after, q) {
      if q in s.quotes { assert QuoteInv(s, q); }
    }
    forall l | l in after.lots && after.lots[l].awardedQuote.Some? ensures PointerInv(after, l) {
      if l in s.lots && s.lots[l].awardedQuote.Some? { assert PointerInv(s, l); }
    }
  }

  ghost function After(s: Market, ops: seq<Op>): Market {
    if ops == [] then s else Step(After(s, ops[..|ops| - 1]), ops[|ops| - 1]).0
  }

  predicate SameLotAwards(s: Market, p: QuoteId, q: QuoteId) {
    && p in s.quotes && q in s.quotes
    && s.quotes[p].status == Awarded && s.quotes[q].status == Awarded
    && s.quotes[p].lot == s.quotes[q].lot
  }

  ghost predicate OneAwardedPerLot(s: Market) {
    forall p, q :: SameLotAwards(s, p, q) ==> p == q
  }

  /** Over every run the invariant holds, and with it at most one quote per lot is awarded: the partial
      unique index never has to step in. */
  lemma {:induction false} RunKeepsInv(s: Market, ops: seq<Op>)
    requires Inv(s)
    ensures Inv(After(s, ops)) && OneAwardedPerLot(After(s, ops))
  {
    if ops != [] {
      RunKeepsInv(s, ops[..|ops| - 1]);
      StepKeepsInv(After(s, ops[..|ops| - 1]), ops[|ops| - 1]);
    }
    var end := After(s, ops);
    forall p, q | SameLotAwards(end, p, q)
      ensures p == q
    {
      assert QuoteInv(end, p) && QuoteInv(end, q);
    }
  }

  /** An awarded quote is deletable exactly when its lot is cancelled, and apart from that it only goes with its lot. */
  lemma AwardedQuoteDisappears(s: Market, op: Op, q: QuoteId)
    requires Inv(s) && q in s.quotes && s.quotes[q].status == Awarded
    ensures q !in Step(s, op).0.quotes
       <==> op == DeleteLot(s.quotes[q].lot) || (op == DeleteQuote(q) && s.lots[s.quotes[q].lot].status == LotCancelled)
  {
    assert QuoteInv(s, q);
  }

  /** Awarding succeeds exactly when the lot's recorded award is no other quote that is still awarded;
      it then leaves this quote as the lot's one awarded quote, and asking again changes nothing. */
  lemma AwardOutcome(s: Market, l: LotId, q: QuoteId)
    requires Inv(s) && l in s.lots && q in s.quotes && s.quotes[q].lot == l
    ensures var (after, r) := Step(s, AwardQuote(l, q));
      var pointer := s.lots[l].awardedQuote;
      && (r == Ok <==> pointer.None? || pointer.value == q || s.quotes[pointer.value].status != Awarded)
      && (r != Ok ==> r == AwardConflict && after == s)
      && (r == Ok ==> AlreadyAwarded(after, l, q) && !OtherAwarded(after.quotes, l, q)
                      && Step(after, AwardQuote(l, q)) == (after, Ok))
  {
    var pointer := s.lots[l].awardedQuote;
    if pointer.Some? {
      assert PointerInv(s, l);
    }
    forall p | p in s.quotes && s.quotes[p].lot == l && s.quotes[p].status == Awarded
      ensures pointer == Some(p)
    {
      assert QuoteInv(s, p);
    }
    if r' :| r' in s.quotes && pointer == Some(r') && r' != q && s.quotes[r'].status == Awarded {
      assert OtherAwarded(s.quotes, l, q);
    }
  }

  // ---- What is not invariant ----

  predicate HasAward(s: Market, l: LotId)
    requires l in s.lots
  {
    && s.lots[l].awardedQuote.Some?
    && s.lots[l].awardedQuote.value in s.quotes
    && s.quotes[s.lots[l].awardedQuote.value].status == Awarded
  }

  /** Every lot shown as awarded has an awarded quote. */
  ghost predicate StatusConsistent(s: Market) {
    forall l :: l in s.lots && s.lots[l].status == LotAwarded ==> HasAward(s, l)
  }

  /** The calls that declare a lot awarded without an award, or withdraw the quote of an awarded lot. */
  predicate BreaksStatus(s: Market, op: Op) {
    match op
    case CreateLot(l, _, status) => l !in s.lots && status == LotAwarded
    case UpdateLot(l, status) => l in s.lots && status == Value(LotAwarded) && !HasAward(s, l)
    case UpdateQuote(q, status, amount) =>
      && q in s.quotes && s.quotes[q].status == Awarded
      && status.Value? && status.v != Awarded && !amount.Null?
      && s.quotes[q].lot in s.lots && s.lots[s.quotes[q].lot].status == LotAwarded
    case _ => false
  }

  /** A call keeps "awarded lots have an awarded quote" exactly when it is none of those. */
  lemma StatusConsistencyExactly(s: Market, op: Op)
    requires Inv(s) && StatusConsistent(s)
    ensures StatusConsistent(Step(s, op).0) <==> !BreaksStatus(s, op)
  {
    var after := Step(s, op).0;
    if BreaksStatus(s, op) {
      var l := if op.UpdateQuote? then s.quotes[op.quote].lot else op.lot;
      if op.UpdateQuote? { assert QuoteInv(s, op.quote); }
      assert l in after.lots && after.lots[l].status == LotAwarded && !HasAward(after, l);
    } else {
      forall l | l in after.lots && after.lots[l].status == LotAwarded
        ensures HasAward(after, l)
      {
        ConsistentStep(s, op, l);
      }
    }
  }

  lemma ConsistentStep(s: Market, op: Op, l: LotId)
    requires Inv(s) && StatusConsistent(s) && !BreaksStatus(s, op)
    requires l in Step(s, op).0.lots && Step(s, op).0.lots[l].status == LotAwarded
    ensures HasAward(Step(s, op).0, l)
  {
    if l in s.lots && s.lots[l].awardedQuote.Some? {
      assert PointerInv(s, l);
      if s.quotes[s.lots[l].awardedQuote.value].status == Awarded {
        assert QuoteInv(s, s.lots[l].awardedQuote.value);
      }
    }
  }

  const AWARD_RUN := [
    CreateLot(0, 0, Tendering), CreateSupplier(0, 0), CreateQuote(0, 0, 0, 100, Received), AwardQuote(0, 0)]

  /** Standing awards are reachable: a lot, a supplier, a quote and its award. */
  lemma StandingAwardWitness()
    ensures var end := After(Market(map[], map[], map[]), AWARD_RUN);
      Inv(end) && 0 in end.quotes && AwardStands(end, 0) && 0 in end.lots && end.lots[0].status == LotAwarded
  {
    var empty := Market(map[], map[], map[]);
    var lot := Step(empty, AWARD_RUN[0]).0;
    var supplier := Step(lot, AWARD_RUN[1]).0;
    var quote := Step(supplier, AWARD_RUN[2]).0;
    assert AWARD_RUN[..4] == AWARD_RUN && AWARD_RUN[..4][..3] == AWARD_RUN[..3] && AWARD_RUN[..3][..2] == AWARD_RUN[..2];
    assert AWARD_RUN[..2][..1] == AWARD_RUN[..1] && AWARD_RUN[..1][..0] == [];
    assert After(empty, AWARD_RUN[..1]) == lot;
    assert After(empty, AWARD_RUN[..2]) == supplier;
    assert After(empty, AWARD_RUN[..3]) == quote;
    assert !OtherAwarded(quote.quotes, 0, 0);
    RunKeepsInv(empty, AWARD_RUN);
  }

  /** The guard on deletion is about the current status only: any standing award can be undone by patching the
      quote first, which leaves the lot shown as awarded with no quote at all. */
  lemma AwardCanBeUndone(s: Market, q: QuoteId)
    requires Inv(s) && q in s.quotes && AwardStands(s, q) && s.lots[s.quotes[q].lot].status == LotAwarded
    ensures Step(s, DeleteQuote(q)).1 == DeleteForbidden
    ensures var l := s.quotes[q].lot;
      var end := After(s, [UpdateQuote(q, Value(Rejected), Absent), DeleteQuote(q)]);
      q !in end.quotes && l in end.lots && end.lots[l].status == LotAwarded && end.lots[l].awardedQuote.None?
  {
    var ops := [UpdateQuote(q, Value(Rejected), Absent), DeleteQuote(q)];
    assert ops[..1] == [ops[0]] && ops[..1][..0] == [];
    assert After(s, ops[..1]) == Step(s, ops[0]).0;
  }
}
