/** The SQLite `keys` table behind the credential pool, as an ordered
    sequence of rows with the four statements the pool issues against it:
    INSERT (which the UNIQUE constraint on `key` can refuse), DELETE and the
    usage UPDATE (both silently match nothing when the key is absent), and
    the full `SELECT key FROM keys` scan. */
module KeyStore {
  import opened Results

  /** One row: `key TEXT UNIQUE`, `memo TEXT`, `usage INTEGER DEFAULT 0`.
      The autoincrement `id` column is never read and is not modelled. */
  datatype Record = Record(key: string, memo: string, usage: int)

  /** The table, in the order a full scan returns its rows. */
  type Table = seq<Record>

  /** The errors the pool can report. `NoRows` is `sql.ErrNoRows`, which
      `AllocateKey` returns for an empty pool; the others come from the
      database. */
  datatype Error =
    | NoRows
    | UniqueViolation(key: string)
    | QueryFailed
    | RowScanFailed(row: nat)
    | IterationFailed(row: nat)
    | ExecFailed

  /** What, if anything, goes wrong while `SELECT key FROM keys` runs. */
  datatype ScanFault =
    | NoFault
      /** `db.Query` itself fails. */
    | QueryFault
      /** `rows.Scan` fails on this row (a NULL `key`, say). */
    | RowScanFault(row: nat)
      /** `rows.Next()` stops with an error before delivering this row. */
    | IterationFault(row: nat)

  /** The `key` column, in scan order. */
  function Keys(t: Table): (ks: seq<string>)
    ensures |ks| == |t|
    ensures forall i :: 0 <= i < |t| ==> ks[i] == t[i].key
  {
    seq(|t|, i requires 0 <= i < |t| => t[i].key)
  }

  /** The UNIQUE constraint on the `key` column. */
  predicate Unique(t: Table) {
    Distinct(Keys(t))
  }

  predicate Distinct(s: seq<string>) {
    forall i, j :: 0 <= i < j < |s| ==> s[i] != s[j]
  }

  /** `INSERT INTO keys (key, memo) VALUES (?, ?)`: refused when the key is
      already present, otherwise a new row with usage 0. */
  function Insert(t: Table, key: string, memo: string): (r: Result<Table, Error>)
    ensures r.Err? <==> key in Keys(t)
    ensures r.Err? ==> r.error == UniqueViolation(key)
    ensures r.Ok? ==> |r.value| == |t| + 1 && r.value[..|t|] == t
    ensures r.Ok? ==> r.value[|t|] == Record(key, memo, 0)
    ensures r.Ok? ==> Keys(r.value) == Keys(t) + [key]
    ensures r.Ok? && Unique(t) ==> Unique(r.value)
  {
    if key in Keys(t) then Err(UniqueViolation(key))
    else
      var t' := t + [Record(key, memo, 0)];
      assert Keys(t') == Keys(t) + [key];
      Ok(t')
  }

  /** `DELETE FROM keys WHERE key = ?`: every matching row goes, the others
      keep their order; no matching row is not an error. */
  function Delete(t: Table, key: string): (r: Table)
    ensures forall x :: x in r <==> x in t && x.key != key
    ensures key !in Keys(r)
    ensures |r| <= |t|
    ensures Unique(t) ==> Unique(r)
  {
    if t == [] then []
    else if t[0].key == key then Delete(t[1..], key)
    else
      var rest := Delete(t[1..], key);
      UniqueTail(t);
      if Unique(t) then
        UniqueCons(t[0], rest);
        [t[0]] + rest
      else
        [t[0]] + rest
  }

  /** Under the UNIQUE constraint, the rest of the table keeps it and holds
      no second row for the first row's key. */
  lemma UniqueTail(t: Table)
    requires t != []
    ensures Unique(t) ==> Unique(t[1..]) && forall x :: x in t[1..] ==> x.key != t[0].key
  {
    if Unique(t) {
      var ks := Keys(t);
      forall x | x in t[1..]
        ensures x.key != t[0].key
      {
        var i :| 0 <= i < |t[1..]| && t[1..][i] == x;
        assert ks[0] != ks[i + 1];
      }
      forall i, j | 0 <= i < j < |t[1..]|
        ensures Keys(t[1..])[i] != Keys(t[1..])[j]
      {
        assert ks[i + 1] != ks[j + 1];
      }
    }
  }

  /** A row whose key no other row holds can go in front of a table that
      satisfies the UNIQUE constraint. */
  lemma UniqueCons(x: Record, rest: Table)
    requires Unique(rest) && forall y :: y in rest ==> y.key != x.key
    ensures Unique([x] + rest)
  {
    var u := [x] + rest;
    forall i, j | 0 <= i < j < |u|
      ensures Keys(u)[i] != Keys(u)[j]
    {
      assert u[j] == rest[j - 1];
      if i > 0 {
        assert u[i] == rest[i - 1];
        assert Keys(rest)[i - 1] != Keys(rest)[j - 1];
      }
    }
  }

  /** Deleting an absent key leaves the table as it was. */
  lemma {:induction false} DeleteAbsent(t: Table, key: string)
    requires key !in Keys(t)
    ensures Delete(t, key) == t
  {
    if t != [] {
      assert t[0].key == Keys(t)[0];
      assert Keys(t[1..]) == Keys(t)[1..];
      DeleteAbsent(t[1..], key);
      assert [t[0]] + t[1..] == t;
    }
  }

  /** In a table that satisfies the UNIQUE constraint, deleting the key at
      position `p` removes exactly that row and keeps the rest in order. */
  lemma {:induction false} DeleteAt(t: Table, key: string, p: nat)
    requires Unique(t) && p < |t| && t[p].key == key
    ensures Delete(t, key) == t[..p] + t[p + 1..]
  {
    UniqueTail(t);
    if p == 0 {
      forall i | 0 <= i < |t[1..]|
        ensures Keys(t[1..])[i] != key
      {
        assert t[1..][i] in t[1..];
      }
      DeleteAbsent(t[1..], key);
    } else {
      assert t[p] == t[1..][p - 1];
      assert t[0].key != key;
      DeleteAt(t[1..], key, p - 1);
      assert Delete(t, key) == [t[0]] + (t[1..][..p - 1] + t[1..][p..]);
      DropAround(t, p);
    }
  }

  /** Removing position `p > 0` is keeping the head and removing position
      `p - 1` of the tail. */
  lemma DropAround(t: Table, p: nat)
    requires 0 < p < |t|
    ensures [t[0]] + (t[1..][..p - 1] + t[1..][p..]) == t[..p] + t[p + 1..]
  {
    assert t[1..][..p - 1] == t[1..p];
    assert t[1..][p..] == t[p + 1..];
    assert [t[0]] + t[1..p] == t[..p];
  }

  /** `UPDATE keys SET usage = usage + ? WHERE key = ?`: the matching row's
      counter grows by `w`; nothing else changes, and an absent key matches
      nothing. */
  function AddUsage(t: Table, key: string, w: int): (r: Table)
    ensures |r| == |t|
    ensures forall i :: 0 <= i < |t| ==> r[i].key == t[i].key && r[i].memo == t[i].memo
    ensures forall i :: 0 <= i < |t| ==>
              r[i].usage == if t[i].key == key then t[i].usage + w else t[i].usage
  {
    if t == [] then []
    else
      var row := if t[0].key == key then t[0].(usage := t[0].usage + w) else t[0];
      [row] + AddUsage(t[1..], key, w)
  }

  /** The usage counter of the first row holding `key`, if there is one. */
  function UsageOf(t: Table, key: string): Option<int> {
    if t == [] then None
    else if t[0].key == key then Some(t[0].usage)
    else UsageOf(t[1..], key)
  }

  /** `UsageOf` finds a row exactly when the key is in the table, and what
      it reports is that row's counter. */
  lemma {:induction false} UsageOfFinds(t: Table, key: string)
    ensures UsageOf(t, key).None? <==> key !in Keys(t)
    ensures UsageOf(t, key).Some? ==>
              exists i :: 0 <= i < |t| && t[i].key == key && t[i].usage == UsageOf(t, key).value
  {
    if t != [] {
      assert Keys(t[1..]) == Keys(t)[1..];
      assert t[0].key == Keys(t)[0];
      UsageOfFinds(t[1..], key);
      if t[0].key != key && UsageOf(t[1..], key).Some? {
        var i :| 0 <= i < |t[1..]| && t[1..][i].key == key && t[1..][i].usage == UsageOf(t[1..], key).value;
        assert t[i + 1] == t[1..][i];
      }
    }
  }

  /** The usage UPDATE charges `w` to the updated key and to no other key,
      and does not make a key appear or disappear. */
  lemma {:induction false} AddUsageCharges(t: Table, key: string, w: int, other: string)
    ensures UsageOf(AddUsage(t, key, w), other) ==
            match UsageOf(t, other)
            case None => None
            case Some(u) => Some(if other == key then u + w else u)
  {
    if t != [] {
      var r := AddUsage(t, key, w);
      assert r[1..] == AddUsage(t[1..], key, w);
      if t[0].key != other {
        assert r[0].key != other;
        AddUsageCharges(t[1..], key, w, other);
      }
    }
  }

  /** The scan as the pool needs it: all or nothing. Either every row is
      read, and the keys come back in scan order, or an error comes back. */
  function Scan(t: Table, fault: ScanFault): (r: Result<seq<string>, Error>)
    ensures r.Ok? ==> r.value == Keys(t)
    ensures r.Ok? <==>
              !fault.QueryFault? && !((fault.RowScanFault? || fault.IterationFault?) && fault.row < |t|)
    ensures r.Err? && fault.RowScanFault? ==> r.error == RowScanFailed(fault.row)
    ensures r.Err? && fault.IterationFault? ==> r.error == IterationFailed(fault.row)
    ensures fault.QueryFault? ==> r == Err(QueryFailed)
  {
    match fault
    case NoFault => Ok(Keys(t))
    case QueryFault => Err(QueryFailed)
    case RowScanFault(i) => if i < |t| then Err(RowScanFailed(i)) else Ok(Keys(t))
    case IterationFault(i) => if i < |t| then Err(IterationFailed(i)) else Ok(Keys(t))
  }

  /** The scan as keymanager/KeyManager.go writes it. `rows.Err()` is never
      consulted after the `rows.Next()` loop, so an iteration error just ends
      the loop and the keys read so far are handed back as a success. */
  function ScanAsWritten(t: Table, fault: ScanFault): (r: Result<seq<string>, Error>)
    ensures r.Ok? ==> r.value <= Keys(t)
    ensures !fault.IterationFault? ==> r == Scan(t, fault)
  {
    match fault
    case IterationFault(i) => if i < |t| then Ok(Keys(t)[..i]) else Ok(Keys(t))
    case _ => Scan(t, fault)
  }

  /** An iteration error before the last row makes the written scan report
      success with a strict prefix of the keys, where the all-or-nothing
      scan reports the error. */
  lemma IterationFaultTruncates(t: Table, i: nat)
    requires i < |t|
    ensures ScanAsWritten(t, IterationFault(i)).Ok?
    ensures ScanAsWritten(t, IterationFault(i)).value != Keys(t)
    ensures |ScanAsWritten(t, IterationFault(i)).value| == i
    ensures Scan(t, IterationFault(i)) == Err(IterationFailed(i))
  {
  }
}
