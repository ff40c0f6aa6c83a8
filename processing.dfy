/**
 * `Mail.process` (lib/mail.rb:50-78) and the table it works on. One run
 * selects a batch, claims it with a single bulk write, then resolves each
 * mail of the batch in turn: a delivered mail is destroyed, a failed one is
 * unlocked and charged one try. `ProcessSpec` is what one run does to the
 * table; `MailTable.Process` does it step by step, as `Mail.process` does.
 */
module Processing {
  import opened Wrappers
  import opened Records
  import opened Selection
  import opened Enqueue
  import opened Delivery

  /** `process`'s default batch size. */
  const DefaultLimit: nat := 100

  /**
   * The options `process` recognises. The outer `None` is a `:limit` key the
   * caller did not pass; `Some(None)` is `:limit => nil`, which reaches
   * `find` as a query without a LIMIT.
   */
  datatype ProcessOptions = ProcessOptions(limit: Option<Option<nat>>)

  /**
   * The batch size a run uses on a table of `size` rows: the caller's limit,
   * the default when none was passed, and the whole table for an explicit `nil`.
   */
  function LimitOf(opts: ProcessOptions, size: nat): (limit: nat)
    ensures opts.limit.None? ==> limit == DefaultLimit
    ensures opts.limit.Some? && opts.limit.value.Some? ==> limit == opts.limit.value.value
    ensures opts.limit == Some(None) ==> limit >= size
  {
    match opts.limit
    case None => DefaultLimit
    case Some(None) => size
    case Some(Some(n)) => n
  }

  /** `process(:limit => nil)` runs an unlimited query: every qualifying row is in the batch. */
  lemma UnlimitedTakesAll(rows: seq<Mail>, now: int)
    ensures var batch := Select(rows, now, LimitOf(ProcessOptions(Some(None)), |rows|));
      forall m :: m in rows && Eligible(m, now) ==> m in batch
  {
    SelectAll(rows, now, |rows|);
  }

  /** `mails.collect(&:id)`. */
  function Ids(batch: seq<Mail>): (ids: seq<nat>)
    ensures |ids| == |batch|
    ensures forall k :: 0 <= k < |batch| ==> ids[k] == batch[k].id
  {
    if batch == [] then [] else [batch[0].id] + Ids(batch[1..])
  }

  /**
   * The row a failed delivery saves: unlocked, one more try, and
   * `updated_at` refreshed by ActiveRecord's timestamps on `save`.
   */
  function Failed(m: Mail, now: int): Mail {
    m.(locked := false, tries := m.tries + 1, updatedAt := now)
  }

  /** What `deliver!` answers for each mail of the batch, in batch order. */
  function Outcomes(batch: seq<Mail>, transport: Transport): (delivered: seq<bool>)
    ensures |delivered| == |batch|
    ensures forall k :: 0 <= k < |batch| ==> delivered[k] == Deliver(batch[k], k, transport)
  {
    seq(|batch|, k requires 0 <= k < |batch| => Deliver(batch[k], k, transport))
  }

  /** The table after the first `n` mails of the batch have been resolved, given what each delivery answered. */
  function Resolve(rows: seq<Mail>, batch: seq<Mail>, delivered: seq<bool>, n: nat, now: int): seq<Mail>
    requires n <= |batch| && n <= |delivered|
  {
    if n == 0 then rows
    else
      var prev := Resolve(rows, batch, delivered, n - 1, now);
      var m := batch[n - 1];
      if delivered[n - 1] then Remove(prev, m.id) else Replace(prev, Failed(m, now))
  }

  /** The table after one run of `process` with batch size `limit` at time `now`. */
  function ProcessSpec(rows: seq<Mail>, limit: nat, now: int, transport: Transport): seq<Mail> {
    var batch := Select(rows, now, limit);
    if |batch| == 0 then rows
    else Resolve(Claim(rows, Ids(batch)), batch, Outcomes(batch, transport), |batch|, now)
  }

  /** Resolving the `n`-th mail destroys it after a delivery and saves it as failed otherwise. */
  lemma ResolveNext(rows: seq<Mail>, batch: seq<Mail>, delivered: seq<bool>, n: nat, now: int)
    requires n < |batch| && n < |delivered|
    ensures Resolve(rows, batch, delivered, n + 1, now) ==
      if delivered[n] then Remove(Resolve(rows, batch, delivered, n, now), batch[n].id)
      else Replace(Resolve(rows, batch, delivered, n, now), Failed(batch[n], now))
  {
  }

  /** Resolving one more mail changes at most the row with that mail's id. */
  lemma ResolveStep(rows: seq<Mail>, batch: seq<Mail>, delivered: seq<bool>, n: nat, now: int, j: nat)
    requires 0 < n <= |batch| && n <= |delivered|
    ensures var prev := Lookup(Resolve(rows, batch, delivered, n - 1, now), j);
      Lookup(Resolve(rows, batch, delivered, n, now), j) ==
        if batch[n - 1].id != j then prev
        else if delivered[n - 1] || prev.None? then None
        else Some(Failed(batch[n - 1], now))
  {
    var prev := Resolve(rows, batch, delivered, n - 1, now);
    var m := batch[n - 1];
    if delivered[n - 1] {
      assert Resolve(rows, batch, delivered, n, now) == Remove(prev, m.id);
      LookupRemove(prev, m.id, j);
    } else {
      assert Resolve(rows, batch, delivered, n, now) == Replace(prev, Failed(m, now));
      LookupReplace(prev, Failed(m, now), j);
    }
  }

  /** A row that none of the first `n` mails names is left as it was. */
  lemma {:induction false} ResolveUntouched(rows: seq<Mail>, batch: seq<Mail>, delivered: seq<bool>, n: nat, now: int, j: nat)
    requires n <= |batch| && n <= |delivered|
    requires forall k :: 0 <= k < n ==> batch[k].id != j
    ensures Lookup(Resolve(rows, batch, delivered, n, now), j) == Lookup(rows, j)
  {
    if n > 0 {
      ResolveUntouched(rows, batch, delivered, n - 1, now, j);
      ResolveStep(rows, batch, delivered, n, now, j);
    }
  }

  /** The `k`-th mail of the batch ends destroyed if its delivery succeeded, and saved as failed otherwise. */
  lemma {:induction false} ResolveTouched(rows: seq<Mail>, batch: seq<Mail>, delivered: seq<bool>, n: nat, now: int, k: nat)
    requires k < n <= |batch| && n <= |delivered|
    requires UniqueIds(batch)
    requires Lookup(rows, batch[k].id).Some?
    ensures Lookup(Resolve(rows, batch, delivered, n, now), batch[k].id) ==
      if delivered[k] then None else Some(Failed(batch[k], now))
  {
    var j := batch[k].id;
    if k == n - 1 {
      ResolveUntouched(rows, batch, delivered, n - 1, now, j);
    } else {
      assert batch[n - 1].id != j;
      ResolveTouched(rows, batch, delivered, n - 1, now, k);
    }
    ResolveStep(rows, batch, delivered, n, now, j);
  }

  /** Resolving never breaks the primary key: ids stay unique and below the table's next id. */
  lemma {:induction false} ResolveKeepsKeys(rows: seq<Mail>, batch: seq<Mail>, delivered: seq<bool>, n: nat, now: int, bound: nat)
    requires n <= |batch| && n <= |delivered|
    requires UniqueIds(rows) && IdsBelow(rows, bound) && IdsBelow(batch, bound)
    ensures UniqueIds(Resolve(rows, batch, delivered, n, now))
    ensures IdsBelow(Resolve(rows, batch, delivered, n, now), bound)
  {
    if n > 0 {
      ResolveKeepsKeys(rows, batch, delivered, n - 1, now, bound);
      var prev := Resolve(rows, batch, delivered, n - 1, now);
      var m := batch[n - 1];
      assert m in batch;
      RemoveKeepsKeys(prev, m.id, bound);
      ReplaceKeepsKeys(prev, Failed(m, now), bound);
    }
  }

  /** When every delivery succeeds, each resolved mail takes exactly one row away. */
  lemma {:induction false} ResolveAllDelivered(rows: seq<Mail>, batch: seq<Mail>, delivered: seq<bool>, n: nat, now: int, bound: nat)
    requires n <= |batch| && n <= |delivered|
    requires UniqueIds(rows) && IdsBelow(rows, bound) && IdsBelow(batch, bound) && UniqueIds(batch)
    requires forall k :: 0 <= k < |batch| ==> Lookup(rows, batch[k].id).Some?
    requires forall k :: 0 <= k < n ==> delivered[k]
    ensures |Resolve(rows, batch, delivered, n, now)| == |rows| - n
  {
    if n > 0 {
      ResolveAllDelivered(rows, batch, delivered, n - 1, now, bound);
      DeliveredStep(rows, batch, delivered, n, now, bound);
    }
  }

  /** One successful delivery after `n - 1` of them removes one more row. */
  lemma DeliveredStep(rows: seq<Mail>, batch: seq<Mail>, delivered: seq<bool>, n: nat, now: int, bound: nat)
    requires 0 < n <= |batch| && n <= |delivered| && delivered[n - 1]
    requires UniqueIds(rows) && IdsBelow(rows, bound) && IdsBelow(batch, bound) && UniqueIds(batch)
    requires Lookup(rows, batch[n - 1].id).Some?
    requires |Resolve(rows, batch, delivered, n - 1, now)| == |rows| - (n - 1)
    ensures |Resolve(rows, batch, delivered, n, now)| == |rows| - n
  {
    var prev := Resolve(rows, batch, delivered, n - 1, now);
    var m := batch[n - 1];
    assert UniqueIds(prev) by {
      ResolveKeepsKeys(rows, batch, delivered, n - 1, now, bound);
    }
    assert Lookup(prev, m.id).Some? by {
      forall k | 0 <= k < n - 1 ensures batch[k].id != m.id {
      }
      ResolveUntouched(rows, batch, delivered, n - 1, now, m.id);
    }
    RemoveCount(prev, m.id);
    ResolveNext(rows, batch, delivered, n - 1, now);
  }

  /** No row qualifies: the run returns before it writes anything. */
  lemma NothingEligible(rows: seq<Mail>, limit: nat, now: int, transport: Transport)
    requires forall m :: m in rows ==> !Eligible(m, now)
    ensures ProcessSpec(rows, limit, now, transport) == rows
  {
    CandidatesEmpty(rows, now);
  }

  /** A row outside the batch reads the same after the run. */
  lemma ProcessUnselected(rows: seq<Mail>, limit: nat, now: int, transport: Transport, j: nat)
    requires forall m :: m in Select(rows, now, limit) ==> m.id != j
    ensures Lookup(ProcessSpec(rows, limit, now, transport), j) == Lookup(rows, j)
  {
    var batch := Select(rows, now, limit);
    if |batch| > 0 {
      var ids := Ids(batch);
      forall k | 0 <= k < |batch| ensures batch[k].id != j {
        assert batch[k] in batch;
      }
      assert j !in ids;
      ResolveUntouched(Claim(rows, ids), batch, Outcomes(batch, transport), |batch|, now, j);
      LookupClaim(rows, ids, j);
    }
  }

  /**
   * The `k`-th mail of the batch: destroyed if `deliver!` returned true,
   * otherwise unlocked with one more try. What happens to one mail depends
   * only on its own delivery.
   */
  lemma ProcessSelected(rows: seq<Mail>, limit: nat, now: int, transport: Transport, k: nat)
    requires UniqueIds(rows)
    requires k < |Select(rows, now, limit)|
    ensures var m := Select(rows, now, limit)[k];
      Lookup(ProcessSpec(rows, limit, now, transport), m.id) ==
        if Deliver(m, k, transport) then None else Some(Failed(m, now))
  {
    var batch := Select(rows, now, limit);
    var m := batch[k];
    var ids := Ids(batch);
    assert m in batch;
    SelectUnique(rows, now, limit);
    LookupMember(rows, m);
    LookupClaim(rows, ids, m.id);
    ResolveTouched(Claim(rows, ids), batch, Outcomes(batch, transport), |batch|, now, k);
  }

  /**
   * A row that does not qualify (tries used up, or locked less than ten
   * minutes ago) comes out of a run unchanged, whatever else happens.
   */
  lemma ProcessSkipsIneligible(rows: seq<Mail>, limit: nat, now: int, transport: Transport, m: Mail)
    requires UniqueIds(rows) && m in rows && !Eligible(m, now)
    ensures Lookup(ProcessSpec(rows, limit, now, transport), m.id) == Some(m)
  {
    forall b | b in Select(rows, now, limit) ensures b.id != m.id {
      if b.id == m.id {
        LookupMember(rows, b);
        LookupMember(rows, m);
      }
    }
    ProcessUnselected(rows, limit, now, transport, m.id);
    LookupMember(rows, m);
  }

  /** The claim of a run locks each mail of its batch and touches no other column of it. */
  lemma ClaimLocksBatch(rows: seq<Mail>, limit: nat, now: int, k: nat)
    requires UniqueIds(rows)
    requires k < |Select(rows, now, limit)|
    ensures var m := Select(rows, now, limit)[k];
      Lookup(Claim(rows, Ids(Select(rows, now, limit))), m.id) == Some(m.(locked := true))
  {
    var batch := Select(rows, now, limit);
    assert batch[k] in batch;
    LookupMember(rows, batch[k]);
    LookupClaim(rows, Ids(batch), batch[k].id);
  }

  /**
   * The claim leaves `updated_at` alone, so right after it a claimed mail
   * still qualifies exactly when its last write was more than ten minutes
   * before `now`: a second run at that moment would select it again.
   */
  lemma ClaimLeavesStaleRowsEligible(rows: seq<Mail>, limit: nat, now: int, k: nat)
    requires UniqueIds(rows)
    requires k < |Select(rows, now, limit)|
    ensures var m := Select(rows, now, limit)[k];
      var claimed := Claim(rows, Ids(Select(rows, now, limit)));
      && Lookup(claimed, m.id).Some?
      && (Eligible(Lookup(claimed, m.id).value, now) <==> m.updatedAt < now - StaleWindow)
  {
    ClaimLocksBatch(rows, limit, now, k);
    var m := Select(rows, now, limit)[k];
    assert m in Select(rows, now, limit);
  }

  /** A run keeps the primary key unique and adds no id. */
  lemma ProcessKeepsKeys(rows: seq<Mail>, limit: nat, now: int, transport: Transport, bound: nat)
    requires UniqueIds(rows) && IdsBelow(rows, bound)
    ensures UniqueIds(ProcessSpec(rows, limit, now, transport))
    ensures IdsBelow(ProcessSpec(rows, limit, now, transport), bound)
  {
    var batch := Select(rows, now, limit);
    if |batch| > 0 {
      ClaimKeepsKeys(rows, Ids(batch), bound);
      ResolveKeepsKeys(Claim(rows, Ids(batch)), batch, Outcomes(batch, transport), |batch|, now, bound);
    }
  }

  /** A run adds no row: every mail in the table after it was in the table before it, under the same id. */
  lemma ProcessAddsNoId(rows: seq<Mail>, limit: nat, now: int, transport: Transport)
    requires UniqueIds(rows)
    ensures forall m :: m in ProcessSpec(rows, limit, now, transport) ==> Lookup(rows, m.id).Some?
  {
    var after := ProcessSpec(rows, limit, now, transport);
    var batch := Select(rows, now, limit);
    ProcessKeepsKeys(rows, limit, now, transport, MaxId(rows) + 1);
    forall m | m in after ensures Lookup(rows, m.id).Some? {
      LookupMember(after, m);
      if k :| 0 <= k < |batch| && batch[k].id == m.id {
        assert batch[k] in batch;
        LookupMember(rows, batch[k]);
      } else {
        ProcessUnselected(rows, limit, now, transport, m.id);
      }
    }
  }

  /** When every delivery succeeds, a run removes exactly the batch: one row per selected mail. */
  lemma ProcessAllDelivered(rows: seq<Mail>, limit: nat, now: int, transport: Transport)
    requires UniqueIds(rows)
    requires forall k, e :: Delivered(transport(k, e))
    ensures |ProcessSpec(rows, limit, now, transport)| == |rows| - Min(limit, |Candidates(rows, now)|)
  {
    var batch := Select(rows, now, limit);
    if |batch| > 0 {
      var ids := Ids(batch);
      var bound := MaxId(rows) + 1;
      SelectUnique(rows, now, limit);
      ClaimKeepsKeys(rows, ids, bound);
      forall k | 0 <= k < |batch| ensures Lookup(Claim(rows, ids), batch[k].id).Some? {
        assert batch[k] in batch;
        LookupMember(rows, batch[k]);
        LookupClaim(rows, ids, batch[k].id);
      }
      ResolveAllDelivered(Claim(rows, ids), batch, Outcomes(batch, transport), |batch|, now, bound);
    }
  }

  /** The largest id in the table (0 for an empty one). */
  function MaxId(rows: seq<Mail>): (r: nat)
    ensures IdsBelow(rows, r + 1)
  {
    if rows == [] then 0
    else
      var t := MaxId(rows[1..]);
      assert forall m :: m in rows ==> m == rows[0] || m in rows[1..];
      if rows[0].id > t then rows[0].id else t
  }

  /** The `mails` table. */
  class MailTable {
    var rows: seq<Mail>
    /** The id the next inserted row receives. */
    var nextId: nat

    predicate Valid()
      reads this
    {
      UniqueIds(rows) && IdsBelow(rows, nextId)
    }

    constructor ()
      ensures Valid() && rows == [] && nextId == 1
    {
      rows := [];
      nextId := 1;
    }

    /** `Mail.queue`: insert the mail as a new row, or insert nothing and report the error. */
    method Queue(msg: Message, opts: QueueOptions, now: int) returns (result: Result<Mail, QueueError>)
      requires Valid()
      modifies this
      ensures Valid()
      ensures result == Build(msg, opts, old(nextId), now)
      ensures result.Success? ==> rows == old(rows) + [result.value] && nextId == old(nextId) + 1
      ensures result.Failure? ==> rows == old(rows) && nextId == old(nextId)
    {
      result := Build(msg, opts, nextId, now);
      if result.Success? {
        var m := result.value;
        forall x | x in rows ensures x.id != m.id {
          assert x.id < nextId;
        }
        rows := rows + [m];
        nextId := nextId + 1;
        forall i, j | 0 <= i < j < |rows| ensures rows[i].id != rows[j].id {
          if j == |rows| - 1 { assert rows[i] in old(rows); }
          else { assert rows[i] == old(rows)[i] && rows[j] == old(rows)[j]; }
        }
      }
    }

    /** `Mail.process(opts)` at time `now`, with `transport` answering each delivery. */
    method Process(opts: ProcessOptions, now: int, transport: Transport)
      requires Valid()
      modifies this
      ensures Valid() && nextId == old(nextId)
      ensures rows == ProcessSpec(old(rows), LimitOf(opts, |old(rows)|), now, transport)
    {
      var mails := Select(rows, now, LimitOf(opts, |rows|));
      if |mails| == 0 {
        return;
      }

      // lock the batch
      var ids := Ids(mails);
      rows := Claim(rows, ids);

      ghost var delivered := Outcomes(mails, transport);
      var i := 0;
      while i < |mails|
        invariant 0 <= i <= |mails|
        invariant nextId == old(nextId)
        invariant rows == Resolve(Claim(old(rows), ids), mails, delivered, i, now)
      {
        var mail := mails[i];
        var ok := Deliver(mail, i, transport);
        ResolveNext(Claim(old(rows), ids), mails, delivered, i, now);
        if ok {
          rows := Remove(rows, mail.id);
        } else {
          rows := Replace(rows, Failed(mail, now));
        }
        i := i + 1;
      }
      ProcessKeepsKeys(old(rows), LimitOf(opts, |old(rows)|), now, transport, nextId);
    }
  }
}
