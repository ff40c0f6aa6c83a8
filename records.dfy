/**
 * One row of the `mails` table (test/schema.rb) and the three writes the
 * queue issues against the table: the bulk claim of `update_all`
 * (lib/mail.rb:65), `destroy` of one row (lib/mail.rb:69) and `save` of one
 * row (lib/mail.rb:73). The table is a sequence of rows in insertion order;
 * `Lookup` is the view by primary key through which every write is stated.
 */
module Records {
  import opened Wrappers

  /** The message columns: passed through to the transport, never interpreted by the queue. */
  datatype Content = Content(
    subject: string,
    body: string,
    from: string,
    to: string,
    cc: string,
    bcc: string,
    contentType: string,
    charset: string,
    data: Option<string>)

  /** A queued mail; timestamps are whole seconds. */
  datatype Mail = Mail(
    id: nat,
    content: Content,
    priority: int,
    tries: int,
    maximumTries: int,
    locked: bool,
    createdAt: int,
    updatedAt: int)

  /** The primary key is unique. */
  predicate UniqueIds(rows: seq<Mail>) {
    forall i, j :: 0 <= i < j < |rows| ==> rows[i].id != rows[j].id
  }

  /** Every id in the table is below `bound` (the next id the table hands out). */
  predicate IdsBelow(rows: seq<Mail>, bound: nat) {
    forall m :: m in rows ==> m.id < bound
  }

  /** The row with primary key `id`, if the table holds one. */
  function Lookup(rows: seq<Mail>, id: nat): (r: Option<Mail>)
    ensures r.Some? ==> r.value in rows && r.value.id == id
  {
    if rows == [] then None
    else if rows[0].id == id then Some(rows[0])
    else Lookup(rows[1..], id)
  }

  /** `destroy`: delete the row with primary key `id`. */
  function Remove(rows: seq<Mail>, id: nat): (r: seq<Mail>)
    ensures |r| <= |rows|
  {
    if rows == [] then []
    else (if rows[0].id == id then [] else [rows[0]]) + Remove(rows[1..], id)
  }

  /** `save` of an existing row: write `m` over the row with the same primary key. */
  function Replace(rows: seq<Mail>, m: Mail): (r: seq<Mail>)
    ensures |r| == |rows|
  {
    if rows == [] then []
    else [if rows[0].id == m.id then m else rows[0]] + Replace(rows[1..], m)
  }

  /** `update_all(["locked = ?", true], :id => ids)`: set only `locked` on the rows whose id is listed. */
  function Claim(rows: seq<Mail>, ids: seq<nat>): (r: seq<Mail>)
    ensures |r| == |rows|
  {
    if rows == [] then []
    else [if rows[0].id in ids then rows[0].(locked := true) else rows[0]] + Claim(rows[1..], ids)
  }

  /** A lookup misses exactly when no row carries the id. */
  lemma {:induction false} LookupAbsent(rows: seq<Mail>, id: nat)
    ensures Lookup(rows, id).None? <==> forall m :: m in rows ==> m.id != id
  {
    if rows != [] {
      LookupAbsent(rows[1..], id);
      assert forall m :: m in rows ==> m == rows[0] || m in rows[1..];
    }
  }

  /** `destroy` keeps exactly the rows with another id. */
  lemma {:induction false} RemoveMembers(rows: seq<Mail>, id: nat)
    ensures forall m :: m in Remove(rows, id) <==> m in rows && m.id != id
  {
    if rows != [] {
      RemoveMembers(rows[1..], id);
      assert forall m :: m in rows <==> m == rows[0] || m in rows[1..];
    }
  }

  /** With a unique primary key, looking up a row's own id finds that row. */
  lemma {:induction false} LookupMember(rows: seq<Mail>, m: Mail)
    requires UniqueIds(rows) && m in rows
    ensures Lookup(rows, m.id) == Some(m)
  {
    if rows[0] != m {
      assert rows[0].id != m.id by {
        var j :| 0 <= j < |rows| && rows[j] == m;
        assert j != 0;
      }
      LookupMember(rows[1..], m);
    }
  }

  /** After `destroy`, the id is gone and every other row reads as before. */
  lemma {:induction false} LookupRemove(rows: seq<Mail>, id: nat, j: nat)
    ensures Lookup(Remove(rows, id), j) == if j == id then None else Lookup(rows, j)
  {
    if rows != [] {
      var t := Remove(rows[1..], id);
      LookupRemove(rows[1..], id, j);
      if rows[0].id != id {
        var r := [rows[0]] + t;
        assert Remove(rows, id) == r;
        assert r[0] == rows[0] && r[1..] == t;
      } else {
        assert Remove(rows, id) == t;
      }
    }
  }

  /** After `save`, the saved id reads as the new row (if it existed) and every other row as before. */
  lemma {:induction false} LookupReplace(rows: seq<Mail>, m: Mail, j: nat)
    ensures Lookup(Replace(rows, m), j) ==
      if j != m.id then Lookup(rows, j)
      else if Lookup(rows, j).Some? then Some(m)
      else None
  {
    if rows != [] {
      LookupReplace(rows[1..], m, j);
    }
  }

  /** The claim locks exactly the listed rows and changes no other column and no other row. */
  lemma {:induction false} LookupClaim(rows: seq<Mail>, ids: seq<nat>, j: nat)
    ensures Lookup(Claim(rows, ids), j) ==
      match Lookup(rows, j)
      case None => None
      case Some(m) => Some(if j in ids then m.(locked := true) else m)
  {
    if rows != [] {
      LookupClaim(rows[1..], ids, j);
    }
  }

  /** `destroy` keeps the primary key unique and the ids below their bound. */
  lemma {:induction false} RemoveKeepsKeys(rows: seq<Mail>, id: nat, bound: nat)
    requires UniqueIds(rows) && IdsBelow(rows, bound)
    ensures UniqueIds(Remove(rows, id)) && IdsBelow(Remove(rows, id), bound)
  {
    if rows != [] {
      RemoveKeepsKeys(rows[1..], id, bound);
      RemoveMembers(rows, id);
      RemoveMembers(rows[1..], id);
      var r := Remove(rows, id);
      var t := Remove(rows[1..], id);
      if rows[0].id != id {
        assert r == [rows[0]] + t;
        forall i, j | 0 <= i < j < |r| ensures r[i].id != r[j].id {
          if i == 0 {
            assert r[j] in t;
            assert r[j] in rows[1..];
            var k :| 0 <= k < |rows[1..]| && rows[1..][k] == r[j];
            assert rows[k + 1] == r[j];
          } else {
            assert r[i] == t[i - 1] && r[j] == t[j - 1];
          }
        }
      }
    }
  }

  /** `save` of a row with an id already in the table keeps the primary key unique and the ids bounded. */
  lemma {:induction false} ReplaceKeepsKeys(rows: seq<Mail>, m: Mail, bound: nat)
    requires UniqueIds(rows) && IdsBelow(rows, bound) && m.id < bound
    ensures UniqueIds(Replace(rows, m)) && IdsBelow(Replace(rows, m), bound)
    ensures forall k :: 0 <= k < |rows| ==> Replace(rows, m)[k].id == rows[k].id
  {
    if rows != [] {
      ReplaceKeepsKeys(rows[1..], m, bound);
      var r := Replace(rows, m);
      assert forall k :: 1 <= k < |rows| ==> r[k] == Replace(rows[1..], m)[k - 1];
    }
  }

  /** The claim keeps every id where it was. */
  lemma {:induction false} ClaimKeepsKeys(rows: seq<Mail>, ids: seq<nat>, bound: nat)
    requires UniqueIds(rows) && IdsBelow(rows, bound)
    ensures UniqueIds(Claim(rows, ids)) && IdsBelow(Claim(rows, ids), bound)
    ensures forall k :: 0 <= k < |rows| ==> Claim(rows, ids)[k].id == rows[k].id
  {
    if rows != [] {
      ClaimKeepsKeys(rows[1..], ids, bound);
      var r := Claim(rows, ids);
      assert forall k :: 1 <= k < |rows| ==> r[k] == Claim(rows[1..], ids)[k - 1];
    }
  }

  /** `destroy` of a row that is there shrinks the table by exactly one row. */
  lemma {:induction false} RemoveCount(rows: seq<Mail>, id: nat)
    requires UniqueIds(rows) && Lookup(rows, id).Some?
    ensures |Remove(rows, id)| == |rows| - 1
  {
    if rows[0].id == id {
      assert forall m :: m in rows[1..] ==> m.id != id by {
        forall m | m in rows[1..] ensures m.id != id {
          var k :| 0 <= k < |rows[1..]| && rows[1..][k] == m;
          assert rows[k + 1] == m;
        }
      }
      RemoveAbsent(rows[1..], id);
    } else {
      RemoveCount(rows[1..], id);
    }
  }

  /** `destroy` of an id that is not there changes nothing. */
  lemma {:induction false} RemoveAbsent(rows: seq<Mail>, id: nat)
    requires forall m :: m in rows ==> m.id != id
    ensures Remove(rows, id) == rows
  {
    if rows != [] {
      RemoveAbsent(rows[1..], id);
      assert rows == [rows[0]] + rows[1..];
    }
  }
}
