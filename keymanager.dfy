/** The credential pool of keymanager/KeyManager.go: the keys last read from
    the `keys` table and a round-robin cursor over them. */
module Keymanager {
  import opened Results
  import opened KeyStore

  /** Where `AllocateKey` moves the cursor over `n` keys: while the cursor is
      in range this is the cyclic successor, and a cursor left beyond the end
      by a shrinking reload goes back to the first key, not to its remainder
      modulo `n`. */
  function NextIndex(cursor: int, n: nat): (next: nat)
    requires n > 0 && cursor >= -1
    ensures next < n
    ensures cursor < n ==> next == (cursor + 1) % n
    ensures cursor >= n ==> next == 0
  {
    if cursor + 1 >= n then 0 else cursor + 1
  }

  /** The cursor after `k` allocations over `n` keys, starting from `cursor`,
      with no reload in between. */
  function CursorAfter(cursor: int, n: nat, k: nat): (c: int)
    requires n > 0 && cursor >= -1
    ensures c >= -1
    ensures k > 0 ==> 0 <= c < n
    ensures k == 0 ==> c == cursor
  {
    if k == 0 then cursor else NextIndex(CursorAfter(cursor, n, k - 1), n)
  }

  /** The keys handed out by `k` successive allocations over `keys`,
      starting from `cursor`, with no reload in between. */
  function Allocations(keys: seq<string>, cursor: int, k: nat): (out: seq<string>)
    requires |keys| > 0 && cursor >= -1
    ensures |out| == k
    ensures forall j :: 0 <= j < k ==> out[j] in keys
  {
    if k == 0 then [] else Allocations(keys, cursor, k - 1) + [keys[CursorAfter(cursor, |keys|, k)]]
  }

  lemma MulMonotone(d: int, n: int)
    requires d >= 1 && n > 0
    ensures d * n >= n
  {
  }

  /** Euclidean division is unique: a remainder in range is the remainder. */
  lemma ModUnique(x: int, q: int, r: int, n: int)
    requires n > 0 && 0 <= r < n && x == q * n + r
    ensures x % n == r
  {
    var q', r' := x / n, x % n;
    assert x == q' * n + r';
    assert (q - q') * n == r' - r;
    if q > q' {
      MulMonotone(q - q', n);
    } else if q < q' {
      MulMonotone(q' - q, n);
    }
  }

  lemma ModSmall(a: int, n: int)
    requires 0 <= a < n
    ensures a % n == a
  {
    ModUnique(a, 0, a, n);
  }

  lemma ModShift(a: int, n: int)
    requires a >= 0 && n > 0
    ensures (a + n) % n == a % n
  {
    assert a == (a / n) * n + a % n;
    assert a + n == (a / n + 1) * n + a % n;
    ModUnique(a + n, a / n + 1, a % n, n);
  }

  lemma {:induction false} ModSucc(a: int, n: int)
    requires n > 0 && a >= 0
    ensures (a % n + 1) % n == (a + 1) % n
    decreases a
  {
    if a < n {
      ModSmall(a, n);
      if a + 1 < n {
        ModSmall(a + 1, n);
      } else {
        ModShift(0, n);
      }
    } else {
      ModSucc(a - n, n);
      ModShift(a - n, n);
      ModShift(a - n + 1, n);
    }
  }

  /** With an in-range cursor, `k` allocations leave the cursor `k` places
      further round the cycle. */
  lemma {:induction false} CursorAfterIsModular(cursor: int, n: nat, k: nat)
    requires n > 0 && -1 <= cursor < n && k > 0
    ensures CursorAfter(cursor, n, k) == (cursor + k) % n
  {
    if k > 1 {
      CursorAfterIsModular(cursor, n, k - 1);
      ModSucc(cursor + k - 1, n);
    }
  }

  /** Round-robin order: the `j`-th of successive allocations from an
      in-range cursor is the key `j + 1` places after it, cyclically. */
  lemma {:induction false} RoundRobin(keys: seq<string>, cursor: int, k: nat)
    requires |keys| > 0 && -1 <= cursor < |keys|
    ensures forall j :: 0 <= j < k ==> Allocations(keys, cursor, k)[j] == keys[(cursor + 1 + j) % |keys|]
  {
    if k > 0 {
      RoundRobin(keys, cursor, k - 1);
      CursorAfterIsModular(cursor, |keys|, k);
    }
  }

  /** From a fresh manager (cursor -1), the `k`-th allocation over `n >= k`
      keys leaves the cursor on key `k - 1`: the first pass never wraps. */
  lemma {:induction false} CursorFromFresh(n: nat, k: nat)
    requires 1 <= k <= n
    ensures CursorAfter(-1, n, k) == k - 1
  {
    if k > 1 {
      CursorFromFresh(n, k - 1);
    }
  }

  /** From a fresh manager, the first `k <= N` allocations over `N` keys are
      the first `k` keys in scan order. */
  lemma {:induction false} FreshPrefix(keys: seq<string>, k: nat)
    requires 0 < |keys| && k <= |keys|
    ensures Allocations(keys, -1, k) == keys[..k]
  {
    if k > 0 {
      FreshPrefix(keys, k - 1);
      CursorFromFresh(|keys|, k);
      assert keys[..k] == keys[..k - 1] + [keys[k - 1]];
    }
  }

  /** From a fresh manager (cursor -1), `N` allocations over `N` keys hand
      out every key once, in scan order. */
  lemma FirstCycle(keys: seq<string>)
    requires |keys| > 0
    ensures Allocations(keys, -1, |keys|) == keys
  {
    FreshPrefix(keys, |keys|);
    assert keys[..|keys|] == keys;
  }

  /** From a fresh manager, allocation `N + 1` over `N` keys starts the
      cycle again with the first key. */
  lemma SecondCycleStarts(keys: seq<string>)
    requires |keys| > 0
    ensures Allocations(keys, -1, |keys| + 1) == keys + [keys[0]]
  {
    var n := |keys|;
    FirstCycle(keys);
    CursorFromFresh(n, n);
    assert CursorAfter(-1, n, n + 1) == NextIndex(n - 1, n) == 0;
  }

  /** What a `loadKeys` call leaves behind: on a complete scan the pool is
      exactly the table's keys and no error is reported; on a failed one the
      error is reported and the pool is what it was before. */
  predicate Reloaded(t: Table, fault: ScanFault, before: seq<string>, after: seq<string>, err: Option<Error>) {
    match Scan(t, fault)
    case Ok(ks) => err == None && after == ks
    case Err(e) => err == Some(e) && after == before
  }

  class KeyManager {
    /** The `keys` table behind the manager's database handle. */
    var table: Table
    /** The keys read by the last successful load, in scan order. */
    var validKeys: seq<string>
    /** The index of the key handed out last; -1 before the first. */
    var index: int

    ghost predicate Valid()
      reads this
    {
      Unique(table) && Distinct(validKeys) && index >= -1
    }

    /** The manager as `NewKeyManager` builds it before the first load. */
    constructor (rows: Table)
      requires Unique(rows)
      ensures Valid()
      ensures table == rows && validKeys == [] && index == -1
    {
      table := rows;
      validKeys := [];
      index := -1;
    }

    /** Replaces the pool with the table's keys by scanning every row; a
        failure anywhere in the scan leaves the pool untouched. The cursor is
        never touched. */
    method LoadKeys(fault: ScanFault) returns (err: Option<Error>)
      requires Valid()
      modifies this`validKeys
      ensures Valid()
      ensures Reloaded(table, fault, old(validKeys), validKeys, err)
      ensures index == old(index)
    {
      if fault.QueryFault? {
        return Some(QueryFailed);
      }
      var keys: seq<string> := [];
      var i := 0;
      while i < |table|
        invariant 0 <= i <= |table|
        invariant |keys| == i
        invariant forall j :: 0 <= j < i ==> keys[j] == table[j].key
        invariant fault.RowScanFault? ==> fault.row >= i
        invariant fault.IterationFault? ==> fault.row >= i
      {
        if fault == IterationFault(i) {
          return Some(IterationFailed(i));
        }
        if fault == RowScanFault(i) {
          return Some(RowScanFailed(i));
        }
        keys := keys + [table[i].key];
        i := i + 1;
      }
      assert keys == Keys(table);
      validKeys := keys;
      err := None;
    }

    /** Inserts a row and, if the insert succeeds, reloads the pool. */
    method CreateKey(memo: string, key: string, execFault: bool, fault: ScanFault) returns (err: Option<Error>)
      requires Valid()
      modifies this`table, this`validKeys
      ensures Valid()
      ensures execFault ==> err == Some(ExecFailed) && table == old(table) && validKeys == old(validKeys)
      ensures !execFault && key in old(Keys(table)) ==>
                err == Some(UniqueViolation(key)) && table == old(table) && validKeys == old(validKeys)
      ensures !execFault && key !in old(Keys(table)) ==>
                table == old(table) + [Record(key, memo, 0)] &&
                Reloaded(table, fault, old(validKeys), validKeys, err)
      ensures err == None ==> key in validKeys && validKeys == Keys(table)
    {
      if execFault {
        return Some(ExecFailed);
      }
      var inserted := Insert(table, key, memo);
      if inserted.Err? {
        return Some(inserted.error);
      }
      table := inserted.value;
      err := LoadKeys(fault);
    }

    /** Returns the pool as it stands. */
    method GetAllKeys() returns (keys: seq<string>, err: Option<Error>)
      ensures keys == validKeys && err == None
    {
      keys := validKeys;
      err := None;
    }

    /** Deletes the key's row, if any, and, if the statement succeeds,
        reloads the pool. */
    method DeleteKey(key: string, execFault: bool, fault: ScanFault) returns (err: Option<Error>)
      requires Valid()
      modifies this`table, this`validKeys
      ensures Valid()
      ensures execFault ==> err == Some(ExecFailed) && table == old(table) && validKeys == old(validKeys)
      ensures !execFault ==> table == Delete(old(table), key) &&
                             Reloaded(table, fault, old(validKeys), validKeys, err)
      ensures err == None ==> key !in validKeys && validKeys == Keys(table)
    {
      if execFault {
        return Some(ExecFailed);
      }
      table := Delete(table, key);
      err := LoadKeys(fault);
    }

    /** Hands out the key after the last one handed out, going back to the
        first key when the cursor runs past the end; an empty pool is an
        error and moves nothing. */
    method AllocateKey() returns (r: Result<string, Error>)
      requires Valid()
      modifies this`index
      ensures Valid()
      ensures validKeys == [] ==> r == Err(NoRows) && index == old(index)
      ensures validKeys != [] ==> index == NextIndex(old(index), |validKeys|) && r == Ok(validKeys[index])
    {
      if |validKeys| == 0 {
        return Err(NoRows);
      }
      index := index + 1;
      if index >= |validKeys| {
        index := 0;
      }
      r := Ok(validKeys[index]);
    }

    /** Adds `usage` to the key's counter in the table. The pool and the
        cursor are not touched; a key with no row is not an error. */
    method IncreaseUsage(key: string, usage: int, execFault: bool) returns (r: Result<string, Error>)
      requires Valid()
      modifies this`table
      ensures Valid()
      ensures execFault ==> r == Err(ExecFailed) && table == old(table)
      ensures !execFault ==> r == Ok(key) && table == AddUsage(old(table), key, usage)
      ensures validKeys == old(validKeys) && index == old(index)
    {
      if execFault {
        return Err(ExecFailed);
      }
      table := AddUsage(table, key, usage);
      assert Keys(table) == Keys(old(table));
      r := Ok(key);
    }
  }

  /** `NewKeyManager`: opening the database and creating the table can fail
      (`initFault`), then the first load runs; any failure yields no
      manager. A new manager starts with its cursor at -1. */
  method NewKeyManager(rows: Table, initFault: bool, fault: ScanFault) returns (km: KeyManager?, err: Option<Error>)
    requires Unique(rows)
    ensures initFault ==> km == null && err == Some(ExecFailed)
    ensures !initFault ==> (err == None <==> Scan(rows, fault).Ok?)
    ensures !initFault && Scan(rows, fault).Err? ==> err == Some(Scan(rows, fault).error)
    ensures err.Some? ==> km == null
    ensures err == None ==>
              km != null && fresh(km) && km.Valid() &&
              km.table == rows && km.validKeys == Keys(rows) && km.index == -1
  {
    if initFault {
      return null, Some(ExecFailed);
    }
    var m := new KeyManager(rows);
    err := m.LoadKeys(fault);
    if err.Some? {
      return null, err;
    }
    km := m;
  }
}
