/**
 * The query at the start of `Mail.process` (lib/mail.rb:55-59): which rows
 * qualify, in what order they come back and how many of them. Rows that
 * tie on both sort keys come back in an order SQL leaves open; the model
 * fixes one (insertion sort over table order) and proves nothing about it.
 */
module Selection {
  import opened Records

  /** `10.minutes`, in seconds. */
  const StaleWindow: int := 600

  /**
   * The query's condition, both branches as written: an unlocked row with
   * tries to spare, or a locked one with tries to spare whose last write is
   * older than ten minutes.
   */
  predicate Eligible(m: Mail, now: int) {
    || (!m.locked && m.tries < m.maximumTries)
    || (m.locked && m.tries < m.maximumTries && m.updatedAt < now - StaleWindow)
  }

  /** `priority asc, created_at asc`: `a` may come before `b`. */
  predicate InOrder(a: Mail, b: Mail) {
    a.priority < b.priority || (a.priority == b.priority && a.createdAt <= b.createdAt)
  }

  predicate Sorted(s: seq<Mail>) {
    forall i, j :: 0 <= i < j < |s| ==> InOrder(s[i], s[j])
  }

  function Min(a: int, b: int): int {
    if a <= b then a else b
  }

  /** The rows that satisfy the condition, in table order. */
  function Candidates(rows: seq<Mail>, now: int): (r: seq<Mail>)
    ensures forall m :: m in r <==> m in rows && Eligible(m, now)
    ensures |r| <= |rows|
  {
    if rows == [] then []
    else (if Eligible(rows[0], now) then [rows[0]] else []) + Candidates(rows[1..], now)
  }

  /** With no qualifying row the query comes back empty. */
  lemma {:induction false} CandidatesEmpty(rows: seq<Mail>, now: int)
    requires forall m :: m in rows ==> !Eligible(m, now)
    ensures Candidates(rows, now) == []
  {
    if rows != [] {
      assert rows[0] in rows;
      assert forall m :: m in rows[1..] ==> m in rows;
      CandidatesEmpty(rows[1..], now);
    }
  }

  /** When every row qualifies, the query finds all of them. */
  lemma {:induction false} CandidatesAll(rows: seq<Mail>, now: int)
    requires forall m :: m in rows ==> Eligible(m, now)
    ensures Candidates(rows, now) == rows
  {
    if rows != [] {
      assert rows[0] in rows;
      assert forall m :: m in rows[1..] ==> m in rows;
      CandidatesAll(rows[1..], now);
      assert rows == [rows[0]] + rows[1..];
    }
  }

  /** Puts `m` in front of the first row that does not come before it. */
  function Insert(m: Mail, s: seq<Mail>): (r: seq<Mail>)
    ensures multiset(r) == multiset(s) + multiset{m}
    ensures Sorted(s) ==> Sorted(r)
  {
    if s == [] then [m]
    else if InOrder(m, s[0]) then [m] + s
    else
      var t := Insert(m, s[1..]);
      assert s == [s[0]] + s[1..];
      InsertAfter(s, m, t);
      [s[0]] + t
  }

  /** The step of `Insert` that keeps the head: it stays in order when it comes before `m`. */
  lemma InsertAfter(s: seq<Mail>, m: Mail, t: seq<Mail>)
    requires s != [] && !InOrder(m, s[0])
    requires multiset(t) == multiset(s[1..]) + multiset{m}
    requires Sorted(s) ==> Sorted(t)
    ensures Sorted(s) ==> Sorted([s[0]] + t)
  {
    if Sorted(s) {
      var r := [s[0]] + t;
      forall i, j | 0 <= i < j < |r| ensures InOrder(r[i], r[j]) {
        if i == 0 {
          assert r[j] == t[j - 1];
          assert r[j] in multiset(t);
          if r[j] != m {
            assert r[j] in s[1..];
            var k :| 0 <= k < |s[1..]| && s[1..][k] == r[j];
            assert s[k + 1] == r[j];
          }
        } else {
          assert r[i] == t[i - 1] && r[j] == t[j - 1];
        }
      }
    }
  }

  /** The rows of `s` in `priority asc, created_at asc` order. */
  function Sort(s: seq<Mail>): (r: seq<Mail>)
    ensures multiset(r) == multiset(s)
    ensures Sorted(r)
  {
    if s == [] then []
    else
      assert s == [s[0]] + s[1..];
      Insert(s[0], Sort(s[1..]))
  }

  /** The rows `find(:all, …)` returns: the qualifying rows in order, at most `limit` of them. */
  function Select(rows: seq<Mail>, now: int, limit: nat): (batch: seq<Mail>)
    ensures |batch| == Min(limit, |Candidates(rows, now)|)
    ensures forall m :: m in batch ==> m in rows && Eligible(m, now)
    ensures Sorted(batch)
  {
    var sorted := Sort(Candidates(rows, now));
    assert forall m :: m in sorted ==> m in multiset(sorted);
    var batch := sorted[..Min(limit, |sorted|)];
    assert forall m :: m in batch ==> m in sorted;
    batch
  }

  /** A qualifying row left out of the batch comes after every row in it: the batch is the top of the order. */
  lemma SelectTop(rows: seq<Mail>, now: int, limit: nat, m: Mail)
    requires m in rows && Eligible(m, now) && m !in Select(rows, now, limit)
    ensures |Select(rows, now, limit)| == limit
    ensures forall b :: b in Select(rows, now, limit) ==> InOrder(b, m)
  {
    var sorted := Sort(Candidates(rows, now));
    assert m in multiset(sorted);
    var j :| 0 <= j < |sorted| && sorted[j] == m;
    var batch := Select(rows, now, limit);
    assert batch == sorted[..Min(limit, |sorted|)];
    forall b | b in batch ensures InOrder(b, m) {
      var i :| 0 <= i < |batch| && batch[i] == b;
      assert sorted[i] == b;
    }
  }

  /** When no more than `limit` rows qualify, all of them are in the batch. */
  lemma SelectAll(rows: seq<Mail>, now: int, limit: nat)
    requires |Candidates(rows, now)| <= limit
    ensures forall m :: m in rows && Eligible(m, now) ==> m in Select(rows, now, limit)
  {
    var sorted := Sort(Candidates(rows, now));
    assert Select(rows, now, limit) == sorted;
    forall m | m in rows && Eligible(m, now) ensures m in sorted {
      assert m in multiset(sorted);
    }
  }

  /** The first row of a non-empty batch comes before every qualifying row. */
  lemma SelectFirst(rows: seq<Mail>, now: int, limit: nat)
    requires |Select(rows, now, limit)| > 0
    ensures forall m :: m in rows && Eligible(m, now) ==> InOrder(Select(rows, now, limit)[0], m)
  {
    var batch := Select(rows, now, limit);
    forall m | m in rows && Eligible(m, now) ensures InOrder(batch[0], m) {
      if m in batch {
        var i :| 0 <= i < |batch| && batch[i] == m;
        if i == 0 { assert batch[0] == m; } else { assert InOrder(batch[0], batch[i]); }
      } else {
        SelectTop(rows, now, limit, m);
      }
    }
  }

  /** The batch of a table with a unique primary key lists no id twice. */
  lemma SelectUnique(rows: seq<Mail>, now: int, limit: nat)
    requires UniqueIds(rows)
    ensures UniqueIds(Select(rows, now, limit))
  {
    CandidatesUnique(rows, now);
    SortUnique(Candidates(rows, now));
  }

  lemma {:induction false} CandidatesUnique(rows: seq<Mail>, now: int)
    requires UniqueIds(rows)
    ensures UniqueIds(Candidates(rows, now))
  {
    if rows != [] {
      CandidatesUnique(rows[1..], now);
      var t := Candidates(rows[1..], now);
      forall x | x in t ensures x.id != rows[0].id {
        var k :| 0 <= k < |rows[1..]| && rows[1..][k] == x;
        assert rows[k + 1] == x;
      }
      ConsUnique(rows[0], t);
    }
  }

  lemma {:induction false} SortUnique(s: seq<Mail>)
    requires UniqueIds(s)
    ensures UniqueIds(Sort(s))
  {
    if s != [] {
      SortUnique(s[1..]);
      var t := Sort(s[1..]);
      forall x | x in t ensures x.id != s[0].id {
        assert x in multiset(t);
        var k :| 0 <= k < |s[1..]| && s[1..][k] == x;
        assert s[k + 1] == x;
      }
      InsertUnique(s[0], t);
    }
  }

  lemma {:induction false} InsertUnique(m: Mail, s: seq<Mail>)
    requires UniqueIds(s) && forall x :: x in s ==> x.id != m.id
    ensures UniqueIds(Insert(m, s))
  {
    if s == [] {
    } else if InOrder(m, s[0]) {
      ConsUnique(m, s);
    } else {
      InsertUnique(m, s[1..]);
      var t := Insert(m, s[1..]);
      forall x | x in t ensures x.id != s[0].id {
        assert x in multiset(t);
        if x != m {
          var k :| 0 <= k < |s[1..]| && s[1..][k] == x;
          assert s[k + 1] == x;
        }
      }
      ConsUnique(s[0], t);
    }
  }

  lemma ConsUnique(m: Mail, s: seq<Mail>)
    requires UniqueIds(s) && forall x :: x in s ==> x.id != m.id
    ensures UniqueIds([m] + s)
  {
    var r := [m] + s;
    forall i, j | 0 <= i < j < |r| ensures r[i].id != r[j].id {
      assert r[j] == s[j - 1];
      if i > 0 { assert r[i] == s[i - 1]; }
    }
  }
}
