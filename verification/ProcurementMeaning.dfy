/** What the procurement calls do to the stored columns, and when they are accepted. */
module ProcurementMeaning {
  import opened Domain
  import opened Procurement

  ghost predicate Accepts(s: Market, op: Op) {
    Step(s, op).1 == Ok
  }

  /** A refused call changes nothing. */
  lemma RefusedChangesNothing(s: Market, op: Op)
    requires !Accepts(s, op)
    ensures Step(s, op).0 == s
  {
  }

  // ---- Quotes ----

  /** A quote that exists keeps lot and supplier for good; its amount changes by a patch that sends one, its status by
      such a patch or by its own award; it goes when it is deleted or with its lot. */
  lemma QuoteColumns(s: Market, op: Op, q: QuoteId)
    requires q in s.quotes && Accepts(s, op)
    ensures var was, after := s.quotes[q], Step(s, op).0.quotes;
      && (q !in after <==> op == DeleteQuote(q) || op == DeleteLot(was.lot))
      && (q in after ==> after[q] == Quote(was.lot, was.supplier,
           if op.UpdateQuote? && op.quote == q && op.newAmount.Value? then op.newAmount.v else was.amount,
           if op == AwardQuote(was.lot, q) then Awarded
           else if op.UpdateQuote? && op.quote == q && op.newStatus.Value? then op.newStatus.v else was.status))
  {
  }

  /** A quote that is new is the one that was sent. */
  lemma NewQuote(s: Market, op: Op, q: QuoteId)
    requires q !in s.quotes
    ensures q in Step(s, op).0.quotes <==> op.CreateQuote? && op.quote == q && Accepts(s, op)
    ensures q in Step(s, op).0.quotes ==> Step(s, op).0.quotes[q] == Quote(op.lot, op.supplier, op.amount, op.status)
  {
  }

  // ---- Lots and suppliers ----

  /** A lot that exists keeps its object; its status changes by a patch that sends one or to AWARDED by an award, its
      award by an award or to null when the awarded quote is deleted; it goes only when it is deleted. */
  lemma LotColumns(s: Market, op: Op, l: LotId)
    requires l in s.lots && Accepts(s, op)
    ensures var was, after := s.lots[l], Step(s, op).0.lots;
      && (l !in after <==> op == DeleteLot(l))
      && (l in after ==> after[l] == Lot(was.objectId,
           if op.AwardQuote? && op.lot == l then LotAwarded
           else if op.UpdateLot? && op.lot == l && op.newLotStatus.Value? then op.newLotStatus.v else was.status,
           if op.AwardQuote? && op.lot == l then Some(op.quote)
           else if op.DeleteQuote? && was.awardedQuote == Some(op.quote) then None else was.awardedQuote,
           was.archived || op == ArchiveLot(l)))
  {
  }

  lemma NewLot(s: Market, op: Op, l: LotId)
    requires l !in s.lots
    ensures l in Step(s, op).0.lots <==> op.CreateLot? && op.lot == l
    ensures l in Step(s, op).0.lots ==> Step(s, op).0.lots[l] == Lot(op.objectId, op.lotStatus, None, false)
  {
  }

  /** A supplier keeps its object, and goes only when it is deleted, which no quote of its own allows. */
  lemma SupplierColumns(s: Market, op: Op, p: SupplierId)
    requires p in s.suppliers
    ensures var after := Step(s, op).0.suppliers;
      && (p in after ==> after[p] == s.suppliers[p])
      && (p !in after <==> op == DeleteSupplier(p) && forall q :: q in s.quotes ==> s.quotes[q].supplier != p)
  {
  }

  // ---- When the calls are accepted ----

  /** A quote may be created exactly for an existing lot, from a supplier of the lot's object, in any status but
      AWARDED; the first demand that fails names the error. */
  lemma CreateQuoteDecides(s: Market, q: QuoteId, l: LotId, p: SupplierId, amount: nat, status: QuoteStatus)
    requires q !in s.quotes
    ensures var r := Step(s, CreateQuote(q, l, p, amount, status)).1;
      && (r == Ok <==> l in s.lots && p in s.suppliers && s.suppliers[p] == s.lots[l].objectId
                       && status in {Received, Shortlisted, Rejected})
      && (r == NotFound <==> l !in s.lots)
      && (r == ScopeError <==> l in s.lots && (p in s.suppliers ==> s.suppliers[p] != s.lots[l].objectId))
      && (r in {Ok, NotFound, ScopeError} || r == StatusForbidden)
  {
  }

  /** A patch is accepted exactly when the quote exists, nothing required is nulled, and it does not award. */
  lemma UpdateQuoteDecides(s: Market, q: QuoteId, status: Field<QuoteStatus>, amount: Field<nat>)
    ensures var r := Step(s, UpdateQuote(q, status, amount)).1;
      && (r == Ok <==> q in s.quotes && status != Null && amount != Null
                       && (status == Value(Awarded) ==> s.quotes[q].status == Awarded))
      && (r == NotFound <==> q !in s.quotes)
      && (r == StatusForbidden <==> q in s.quotes && status == Value(Awarded) && s.quotes[q].status != Awarded)
      && (r in {Ok, NotFound, StatusForbidden} || r == IntegrityError)
  {
  }

  /** Lots may be created, patched and deleted freely; an award needs a quote of the lot. */
  lemma LotCallsDecide(s: Market, l: LotId, o: ObjectId, status: LotStatus, patch: Field<LotStatus>, q: QuoteId)
    ensures l !in s.lots ==> Accepts(s, CreateLot(l, o, status))
    ensures Accepts(s, UpdateLot(l, patch)) <==> l in s.lots && patch != Null
    ensures Accepts(s, DeleteLot(l)) <==> l in s.lots
    ensures l !in s.lots ==> Step(s, UpdateLot(l, patch)).1 == Step(s, DeleteLot(l)).1 == NotFound
    ensures Step(s, AwardQuote(l, q)).1 == NotFound <==> l !in s.lots || q !in s.quotes || s.quotes[q].lot != l
  {
  }

  /** A quote may be deleted exactly unless it is awarded and its lot is not cancelled. */
  lemma DeleteQuoteDecides(s: Market, q: QuoteId)
    requires Inv(s)
    ensures var r := Step(s, DeleteQuote(q)).1;
      && (r == NotFound <==> q !in s.quotes)
      && (r == DeleteForbidden
          <==> q in s.quotes && s.quotes[q].status == Awarded && s.lots[s.quotes[q].lot].status != LotCancelled)
      && (r in {Ok, NotFound} || r == DeleteForbidden)
  {
    if q in s.quotes { assert QuoteInv(s, q); }
  }

  // ---- Runs ----

  /** The amount that the run last sent for a quote, and had accepted. */
  ghost function LastSent(start: Market, ops: seq<Op>, q: QuoteId): Option<nat> {
    if ops == [] then None
    else
      var op, s := ops[|ops| - 1], After(start, ops[..|ops| - 1]);
      if op.CreateQuote? && op.quote == q && Accepts(s, op) then Some(op.amount)
      else if op.UpdateQuote? && op.quote == q && op.newAmount.Value? && Accepts(s, op) then Some(op.newAmount.v)
      else LastSent(start, ops[..|ops| - 1], q)
  }

  /** In every run the amount of a quote is the last one sent for it; awards, other quotes and lots never alter it. */
  lemma {:induction false} AmountIsLastSent(start: Market, ops: seq<Op>, q: QuoteId)
    requires start.quotes == map[] && q in After(start, ops).quotes
    ensures LastSent(start, ops, q) == Some(After(start, ops).quotes[q].amount)
  {
    hide Step;
    var front, op := ops[..|ops| - 1], ops[|ops| - 1];
    var s := After(start, front);
    if q in s.quotes {
      AmountIsLastSent(start, front, q);
      if Accepts(s, op) { QuoteColumns(s, op, q); } else { RefusedChangesNothing(s, op); }
      OnceCreated(s, op, q);
    } else {
      NewQuote(s, op, q);
    }
  }

  lemma OnceCreated(s: Market, op: Op, q: QuoteId)
    requires q in s.quotes
    ensures op.CreateQuote? && op.quote == q ==> !Accepts(s, op)
  {
  }
}
