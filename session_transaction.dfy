/**
 * The Bolt transaction wrapper: one driver session with one open driver
 * transaction, the set of entity wrappers modified under it, and the
 * translation of driver exceptions into the API's retry and not-found
 * exceptions.
 *
 * Driver calls (`tx.run(...)`, `tx.close()`, `session.close()`) are code
 * outside the model: what each call does is passed in as a `DriverOutcome`.
 * The calls the transaction makes on other objects (`entity.stale()`,
 * `entity.clearCaches()`, `db.invalidateQueryCache()`, `tx.success()`,
 * `tx.failure()`) are recorded in fields of the transaction.
 */
module Bolt {
  import opened Wrappers

  /** The driver exceptions the transaction distinguishes. */
  datatype DriverFailure =
    | TransientFailure   // org.neo4j.driver.v1.exceptions.TransientException
    | NoSuchRecord       // org.neo4j.driver.v1.exceptions.NoSuchRecordException
    | OtherFailure       // any other runtime exception

  /** What one driver call does. */
  datatype DriverOutcome<+R> = Completed(value: R) | Failed(failure: DriverFailure)

  /** What a transaction method raises to its caller. */
  datatype TxError =
    | Retry                           // RetryException: the work may be repeated
    | NotFound                        // NotFoundException
    | Raised(failure: DriverFailure)  // the driver's exception, passed through

  /** The translation every statement method applies to a driver failure. */
  function TranslateStatementFailure(f: DriverFailure): (e: TxError)
    ensures e == Retry <==> f == TransientFailure
    ensures e == NotFound <==> f == NoSuchRecord
    ensures e.Raised? <==> f == OtherFailure
    ensures f == OtherFailure ==> e == Raised(f)
  {
    match f
    case TransientFailure => Retry
    case NoSuchRecord => NotFound
    case OtherFailure => Raised(f)
  }

  /** The translation a record iterator's `next()` applies: only transient
      failures are caught. */
  function TranslateIteratorFailure(f: DriverFailure): (e: TxError)
    ensures e == Retry <==> f == TransientFailure
    ensures f != TransientFailure ==> e == Raised(f)
  {
    if f == TransientFailure then Retry else Raised(f)
  }

  /** Retry is the only error a caller may answer by repeating the
      transaction, and both translations agree on which failures give it. */
  lemma RetryOnlyForTransient(f: DriverFailure)
    ensures TranslateStatementFailure(f) == TranslateIteratorFailure(f) <==> f != NoSuchRecord
  {
  }

  /** The result a statement method returns for the outcome of its driver call. */
  function StatementResult<R>(response: DriverOutcome<R>): (r: Outcome<R, TxError>)
    ensures response.Completed? <==> r.Ok?
    ensures r.Ok? ==> r.value == response.value
    ensures r.Err? ==> r.error == TranslateStatementFailure(response.failure)
  {
    match response
    case Completed(v) => Ok(v)
    case Failed(f) => Err(TranslateStatementFailure(f))
  }

  /** Whether the session is still open when the `finally` block of `close()`
      runs: it was open, and `session.close()` inside the `try` was either
      not reached because `tx.close()` failed, or reached and failed. A
      failed close is taken to leave the session open. */
  predicate SessionLeftOpen(wasOpen: bool, txClose: DriverOutcome<()>, sessionClose: DriverOutcome<()>)
  {
    wasOpen && (txClose.Failed? || sessionClose.Failed?)
  }

  /** The result `close()` returns. Inside the `try`, `tx.close()` and then
      `session.close()` are called; the first transient failure becomes
      `Retry` and any other failure passes through. The `finally` block
      closes a session left open once more (`finallyClose`), and a failure
      there replaces the pending result, uncaught. */
  function CloseResult(wasOpen: bool, txClose: DriverOutcome<()>, sessionClose: DriverOutcome<()>,
                       finallyClose: DriverOutcome<()>): (r: Outcome<(), TxError>)
    ensures r.Ok? <==> txClose.Completed? && sessionClose.Completed?
    ensures r == Err(Retry) <==>
      && (txClose == Failed(TransientFailure) || (txClose.Completed? && sessionClose == Failed(TransientFailure)))
      && !(SessionLeftOpen(wasOpen, txClose, sessionClose) && finallyClose.Failed?)
    ensures SessionLeftOpen(wasOpen, txClose, sessionClose) && finallyClose.Failed? ==>
      r == Err(Raised(finallyClose.failure))
    ensures !(SessionLeftOpen(wasOpen, txClose, sessionClose) && finallyClose.Failed?) ==>
      && (txClose.Failed? && txClose.failure != TransientFailure ==> r == Err(Raised(txClose.failure)))
      && (txClose.Completed? && sessionClose.Failed? && sessionClose.failure != TransientFailure ==>
            r == Err(Raised(sessionClose.failure)))
  {
    var tried :=
      match (txClose, sessionClose)
      case (Failed(TransientFailure), _) => Err(Retry)
      case (Failed(f), _) => Err(Raised(f))
      case (Completed(_), Completed(_)) => Ok(())
      case (Completed(_), Failed(TransientFailure)) => Err(Retry)
      case (Completed(_), Failed(f)) => Err(Raised(f));
    if SessionLeftOpen(wasOpen, txClose, sessionClose) && finallyClose.Failed? then Err(Raised(finallyClose.failure))
    else tried
  }

  /** `SessionTransaction`: the wrapper type `W` is the entity wrapper. */
  class SessionTransaction<W(==)> {
    var modifiedEntities: set<W>
    var closed: bool
    var success: bool
    /** the driver transaction: marked successful, marked failed, open */
    var txSuccessMarked: bool
    var txFailureMarked: bool
    var txOpen: bool
    var sessionOpen: bool
    /** calls made on the wrappers and the database service */
    var staled: multiset<W>
    var cachesCleared: multiset<W>
    var queryCacheInvalidations: nat

    /** Opens the transaction on the session (`session.beginTransaction()`). */
    constructor ()
      ensures modifiedEntities == {} && !closed && !success
      ensures !txSuccessMarked && !txFailureMarked && txOpen && sessionOpen
      ensures staled == multiset{} && cachesCleared == multiset{} && queryCacheInvalidations == 0
    {
      modifiedEntities := {};
      closed := false;
      success := false;
      txSuccessMarked := false;
      txFailureMarked := false;
      txOpen := true;
      sessionOpen := true;
      staled := multiset{};
      cachesCleared := multiset{};
      queryCacheInvalidations := 0;
    }

    /** Marks the driver transaction as failed; a success already recorded
        by this wrapper stays recorded. */
    method Failure()
      modifies this
      ensures txFailureMarked && success == old(success) && txSuccessMarked == old(txSuccessMarked)
      ensures modifiedEntities == old(modifiedEntities) && closed == old(closed)
      ensures txOpen == old(txOpen) && sessionOpen == old(sessionOpen)
      ensures staled == old(staled) && cachesCleared == old(cachesCleared)
      ensures queryCacheInvalidations == old(queryCacheInvalidations)
    {
      txFailureMarked := true;
    }

    /** Marks the driver transaction and this wrapper as successful. */
    method Success()
      modifies this
      ensures txSuccessMarked && success && txFailureMarked == old(txFailureMarked)
      ensures modifiedEntities == old(modifiedEntities) && closed == old(closed)
      ensures txOpen == old(txOpen) && sessionOpen == old(sessionOpen)
      ensures staled == old(staled) && cachesCleared == old(cachesCleared)
      ensures queryCacheInvalidations == old(queryCacheInvalidations)
    {
      txSuccessMarked := true;
      success := true;
    }

    /** Records a modified entity; every call invalidates the query cache. */
    method Modified(wrapper: W)
      modifies this
      ensures modifiedEntities == old(modifiedEntities) + {wrapper}
      ensures queryCacheInvalidations == old(queryCacheInvalidations) + 1
      ensures closed == old(closed) && success == old(success)
      ensures txSuccessMarked == old(txSuccessMarked) && txFailureMarked == old(txFailureMarked)
      ensures txOpen == old(txOpen) && sessionOpen == old(sessionOpen)
      ensures staled == old(staled) && cachesCleared == old(cachesCleared)
    {
      queryCacheInvalidations := queryCacheInvalidations + 1;
      modifiedEntities := modifiedEntities + {wrapper};
    }

    function IsClosed(): (r: bool)
      reads this
      ensures r <==> closed
    {
      closed
    }

    method SetClosed(closed: bool)
      modifies this
      ensures this.closed == closed
      ensures modifiedEntities == old(modifiedEntities) && success == old(success)
      ensures txSuccessMarked == old(txSuccessMarked) && txFailureMarked == old(txFailureMarked)
      ensures txOpen == old(txOpen) && sessionOpen == old(sessionOpen)
      ensures staled == old(staled) && cachesCleared == old(cachesCleared)
      ensures queryCacheInvalidations == old(queryCacheInvalidations)
    {
      this.closed := closed;
    }

    /** One call per entity of the set, in the set's (unspecified) order,
        added to the record of calls `log`. */
    static method NotifyEach(entities: set<W>, log: multiset<W>) returns (r: multiset<W>)
      ensures r == log + multiset(entities)
    {
      r := log;
      var remaining := entities;
      while remaining != {}
        invariant remaining <= entities
        invariant r == log + multiset(entities - remaining)
        decreases remaining
      {
        var entity :| entity in remaining;
        assert entities - (remaining - {entity}) == (entities - remaining) + {entity};
        r := r + multiset{entity};
        remaining := remaining - {entity};
      }
      assert entities - {} == entities;
    }

    /** `close()`: without success every modified wrapper is made stale
        (its values may be rolled back); with success the query cache is
        invalidated once if anything was modified and every modified
        wrapper's caches are cleared. The wrapper is marked closed before
        the driver is called. `txClose`, `sessionClose` and `finallyClose`
        are what `tx.close()`, `session.close()` in the `try` and
        `session.close()` in the `finally` do; the session stays open only
        when every close of it that was attempted failed. */
    method Close(txClose: DriverOutcome<()>, sessionClose: DriverOutcome<()>, finallyClose: DriverOutcome<()>)
      returns (r: Outcome<(), TxError>)
      modifies this
      ensures r == CloseResult(old(sessionOpen), txClose, sessionClose, finallyClose)
      ensures closed && !txOpen
      ensures sessionOpen <==> SessionLeftOpen(old(sessionOpen), txClose, sessionClose) && finallyClose.Failed?
      ensures !old(success) ==> staled == old(staled) + multiset(old(modifiedEntities))
                                && cachesCleared == old(cachesCleared)
                                && queryCacheInvalidations == old(queryCacheInvalidations)
      ensures old(success) ==> cachesCleared == old(cachesCleared) + multiset(old(modifiedEntities))
                               && staled == old(staled)
                               && queryCacheInvalidations
                                  == old(queryCacheInvalidations) + (if old(modifiedEntities) == {} then 0 else 1)
      ensures modifiedEntities == old(modifiedEntities) && success == old(success)
      ensures txSuccessMarked == old(txSuccessMarked) && txFailureMarked == old(txFailureMarked)
    {
      if !success {
        staled := NotifyEach(modifiedEntities, staled);
      } else {
        if modifiedEntities != {} {
          queryCacheInvalidations := queryCacheInvalidations + 1;
        }
        cachesCleared := NotifyEach(modifiedEntities, cachesCleared);
      }

      // marked closed before the driver is called
      closed := true;

      r := CloseDriver(txClose, sessionClose, finallyClose);
    }

    /** The `try`/`finally` of `close()`: the driver calls, and what they
        leave open. */
    method CloseDriver(txClose: DriverOutcome<()>, sessionClose: DriverOutcome<()>, finallyClose: DriverOutcome<()>)
      returns (r: Outcome<(), TxError>)
      modifies this
      ensures r == CloseResult(old(sessionOpen), txClose, sessionClose, finallyClose)
      ensures !txOpen
      ensures sessionOpen <==> SessionLeftOpen(old(sessionOpen), txClose, sessionClose) && finallyClose.Failed?
      ensures closed == old(closed) && modifiedEntities == old(modifiedEntities) && success == old(success)
      ensures txSuccessMarked == old(txSuccessMarked) && txFailureMarked == old(txFailureMarked)
      ensures staled == old(staled) && cachesCleared == old(cachesCleared)
      ensures queryCacheInvalidations == old(queryCacheInvalidations)
    {
      // try: tx.close(), then session.close()
      txOpen := false;
      match txClose {
        case Failed(TransientFailure) =>
          r := Err(Retry);
        case Failed(f) =>
          r := Err(Raised(f));
        case Completed(_) =>
          match sessionClose {
            case Completed(_) =>
              sessionOpen := false;
              r := Ok(());
            case Failed(TransientFailure) =>
              r := Err(Retry);
            case Failed(f) =>
              r := Err(Raised(f));
          }
      }
      // finally: free the session if it is still open; a failure here
      // replaces the pending result
      if sessionOpen {
        match finallyClose {
          case Completed(_) =>
            sessionOpen := false;
          case Failed(f) =>
            r := Err(Raised(f));
        }
      }
    }

    /** A statement method (`getLong`, `getObject`, `getEntity`, `getNode`,
        `getRelationship`, `getNodes`, `getRelationships`, `getIds`,
        `getStrings`, `run`, `set`): `response` is what the driver returns
        for the statement, already converted to the method's result type.
        A transient failure marks the transaction closed. */
    method Statement<R>(response: DriverOutcome<R>) returns (r: Outcome<R, TxError>)
      modifies this
      ensures r == StatementResult(response)
      ensures closed == (old(closed) || response == Failed(TransientFailure))
      ensures modifiedEntities == old(modifiedEntities) && success == old(success)
      ensures txSuccessMarked == old(txSuccessMarked) && txFailureMarked == old(txFailureMarked)
      ensures txOpen == old(txOpen) && sessionOpen == old(sessionOpen)
      ensures staled == old(staled) && cachesCleared == old(cachesCleared)
      ensures queryCacheInvalidations == old(queryCacheInvalidations)
    {
      match response {
        case Completed(v) =>
          r := Ok(v);
        case Failed(TransientFailure) =>
          closed := true;
          r := Err(Retry);
        case Failed(NoSuchRecord) =>
          r := Err(NotFound);
        case Failed(f) =>
          r := Err(Raised(f));
      }
    }

    /** `next()` of the record iterator behind `getNodes`, `getRelationships`
        and `getIds`: a transient failure marks the transaction closed. */
    method NextRecord<R>(response: DriverOutcome<R>) returns (r: Outcome<R, TxError>)
      modifies this
      ensures response.Completed? ==> r == Ok(response.value)
      ensures response.Failed? ==> r == Err(TranslateIteratorFailure(response.failure))
      ensures closed == (old(closed) || response == Failed(TransientFailure))
      ensures modifiedEntities == old(modifiedEntities) && success == old(success)
      ensures txSuccessMarked == old(txSuccessMarked) && txFailureMarked == old(txFailureMarked)
      ensures txOpen == old(txOpen) && sessionOpen == old(sessionOpen)
      ensures staled == old(staled) && cachesCleared == old(cachesCleared)
      ensures queryCacheInvalidations == old(queryCacheInvalidations)
    {
      if response.Completed? {
        r := Ok(response.value);
      } else if response.failure == TransientFailure {
        closed := true;
        r := Err(Retry);
      } else {
        r := Err(Raised(response.failure));
      }
    }
  }

  /** A committed unit of work: two entities modified, success, close.
      The query cache is invalidated once per modification (three) and once
      more at close; each distinct wrapper's caches are cleared once, and
      nothing is made stale. */
  method CommittedScenario<W(==)>(a: W, b: W) returns (tx: SessionTransaction<W>, r: Outcome<(), TxError>)
    requires a != b
    ensures fresh(tx) && r == Ok(())
    ensures tx.closed && !tx.sessionOpen
    ensures tx.cachesCleared == multiset{a, b} && tx.staled == multiset{}
    ensures tx.queryCacheInvalidations == 4
  {
    tx := new SessionTransaction();
    tx.Modified(a);
    tx.Modified(b);
    tx.Modified(a);
    tx.Success();
    r := tx.Close(Completed(()), Completed(()), Completed(()));
    assert multiset({a, b}) == multiset{a, b};
  }

  /** A rolled-back unit of work: failure after a modification, then a close
      whose `tx.close()` fails transiently. The modified wrapper is made
      stale, the caller is told to retry, and the `finally` block still
      frees the session. */
  method RolledBackScenario<W(==)>(a: W) returns (tx: SessionTransaction<W>, r: Outcome<(), TxError>)
    ensures fresh(tx) && r == Err(Retry)
    ensures tx.closed && !tx.sessionOpen && !tx.txOpen
    ensures tx.staled == multiset{a} && tx.cachesCleared == multiset{}
    ensures tx.queryCacheInvalidations == 1
  {
    tx := new SessionTransaction();
    tx.Modified(a);
    tx.Failure();
    r := tx.Close(Failed(TransientFailure), Completed(()), Completed(()));
  }

  /** A committed unit of work whose `session.close()` in the `try` fails
      transiently: the caller is told to retry and the `finally` block frees
      the session. If that second close fails too, its exception is what the
      caller sees and the session stays open. */
  method SessionCloseFailsScenario<W(==)>(a: W)
    returns (tx: SessionTransaction<W>, r: Outcome<(), TxError>, tx2: SessionTransaction<W>, r2: Outcome<(), TxError>)
    ensures fresh(tx) && r == Err(Retry) && tx.closed && !tx.sessionOpen
    ensures tx.cachesCleared == multiset{a} && tx.staled == multiset{}
    ensures fresh(tx2) && r2 == Err(Raised(OtherFailure)) && tx2.closed && tx2.sessionOpen
  {
    tx := new SessionTransaction();
    tx.Modified(a);
    tx.Success();
    r := tx.Close(Completed(()), Failed(TransientFailure), Completed(()));
    assert multiset({a}) == multiset{a};
    tx2 := new SessionTransaction();
    tx2.Modified(a);
    tx2.Success();
    r2 := tx2.Close(Completed(()), Failed(TransientFailure), Failed(OtherFailure));
  }
}
