/**
 * The situations test/mail_queue_spec.rb describes, stated over the model:
 * the staleness cut-off, batch limits, priority order, retry counting and
 * exhaustion.
 */
module Scenarios {
  import opened Wrappers
  import opened Records
  import opened Selection
  import opened Delivery
  import opened Processing

  /** A row locked eleven minutes ago is taken again; one locked nine minutes ago, or exactly ten, is not. */
  lemma StaleLockCutoff(m: Mail, now: int)
    requires m.locked && m.tries < m.maximumTries
    ensures Eligible(m.(updatedAt := now - 11 * 60), now)
    ensures !Eligible(m.(updatedAt := now - 9 * 60), now)
    ensures !Eligible(m.(updatedAt := now - 10 * 60), now)
  {
  }

  /** A row whose tries are used up never qualifies, locked or not, however old its lock. */
  lemma ExhaustedNeverEligible(m: Mail, now: int)
    requires m.tries >= m.maximumTries
    ensures !Eligible(m, now)
  {
  }

  /**
   * With every row qualifying and every delivery succeeding, one run leaves
   * `|rows| - limit` rows when there are more than `limit`, and none otherwise.
   */
  lemma DeliverAllQualifying(rows: seq<Mail>, limit: nat, now: int, transport: Transport)
    requires UniqueIds(rows)
    requires forall m :: m in rows ==> Eligible(m, now)
    requires forall k, e :: Delivered(transport(k, e))
    ensures |ProcessSpec(rows, limit, now, transport)| == if |rows| <= limit then 0 else |rows| - limit
  {
    CandidatesAll(rows, now);
    ProcessAllDelivered(rows, limit, now, transport);
  }

  /** 101 queued mails: the default run delivers 100 and leaves one; a run limited to 10 leaves 91. */
  lemma HundredAndOne(rows: seq<Mail>, now: int, transport: Transport)
    requires |rows| == 101 && UniqueIds(rows)
    requires forall m :: m in rows ==> Eligible(m, now)
    requires forall k, e :: Delivered(transport(k, e))
    ensures |ProcessSpec(rows, LimitOf(ProcessOptions(None), |rows|), now, transport)| == 1
    ensures |ProcessSpec(rows, LimitOf(ProcessOptions(Some(Some(10))), |rows|), now, transport)| == 91
  {
    DeliverAllQualifying(rows, 100, now, transport);
    DeliverAllQualifying(rows, 10, now, transport);
  }

  /** A qualifying row with a strictly smaller priority than every other qualifying row heads the batch. */
  lemma LowestPriorityFirst(rows: seq<Mail>, now: int, limit: nat, m: Mail)
    requires limit > 0 && m in rows && Eligible(m, now)
    requires forall x :: x in rows && Eligible(x, now) && x != m ==> m.priority < x.priority
    ensures |Select(rows, now, limit)| > 0 && Select(rows, now, limit)[0] == m
  {
    var batch := Select(rows, now, limit);
    assert m in Candidates(rows, now);
    SelectFirst(rows, now, limit);
    assert batch[0] in batch;
  }

  /** Two queued mails, the older at priority 3 and the newer at priority 0: a run limited to one takes the newer. */
  lemma PriorityBeatsAge(older: Mail, newer: Mail, now: int)
    requires older.id != newer.id
    requires older.priority == 3 && newer.priority == 0 && older.createdAt < newer.createdAt
    requires Eligible(older, now) && Eligible(newer, now)
    ensures Select([older, newer], now, 1) == [newer]
  {
    LowestPriorityFirst([older, newer], now, 1, newer);
  }

  /** A run over a single qualifying row whose delivery fails leaves it unlocked with one more try. */
  lemma SingleFailure(m: Mail, limit: nat, now: int, transport: Transport)
    requires limit > 0 && Eligible(m, now)
    requires forall k, e :: !Delivered(transport(k, e))
    ensures ProcessSpec([m], limit, now, transport) == [Failed(m, now)]
  {
    assert Candidates([m], now) == [m];
    var batch := Select([m], now, limit);
    assert batch == [m];
    assert Claim([m], Ids(batch)) == [m.(locked := true)];
    var delivered := Outcomes(batch, transport);
    assert delivered[0] == false;
    var claimed := [m.(locked := true)];
    assert Resolve(claimed, batch, delivered, 0, now) == claimed;
    assert Replace(claimed, Failed(m, now)) == [Failed(m, now)];
    assert Resolve(claimed, batch, delivered, 1, now) == [Failed(m, now)];
  }

  /**
   * Three runs whose deliveries all fail take a fresh mail from 0 to 3
   * tries; a fourth run leaves it alone.
   */
  lemma RetriesRunOut(m: Mail, t1: int, t2: int, t3: int, t4: int, transport: Transport)
    requires !m.locked && m.tries == 0 && m.maximumTries == 3
    requires forall k, e :: !Delivered(transport(k, e))
    ensures var r1 := ProcessSpec([m], DefaultLimit, t1, transport);
      var r2 := ProcessSpec(r1, DefaultLimit, t2, transport);
      var r3 := ProcessSpec(r2, DefaultLimit, t3, transport);
      && |r3| == 1 && r3[0].tries == 3 && !r3[0].locked
      && ProcessSpec(r3, DefaultLimit, t4, transport) == r3
  {
    SingleFailure(m, DefaultLimit, t1, transport);
    var m1 := Failed(m, t1);
    SingleFailure(m1, DefaultLimit, t2, transport);
    var m2 := Failed(m1, t2);
    SingleFailure(m2, DefaultLimit, t3, transport);
    var m3 := Failed(m2, t3);
    NothingEligible([m3], DefaultLimit, t4, transport);
  }
}
