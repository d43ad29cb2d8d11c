/** The two append-only sinks, and the agreement of their scans. */
module Storage {
  import opened Basics
  import opened Trace

  /** Composite ordering key: time first, then identifier. */
  datatype OrderKey = OrderKey(tsNs: u64, traceId: Bytes)

  predicate KeyLess(a: OrderKey, b: OrderKey) {
    a.tsNs < b.tsNs || (a.tsNs == b.tsNs && LexLess(a.traceId, b.traceId))
  }

  function KeyOf(row: TraceRow): OrderKey {
    OrderKey(row.tripTsNs, row.traceId)
  }

  /** Byte order on stored keys is exactly the composite order, and the bytes lose nothing. */
  lemma KeysAgree(a: OrderKey, b: OrderKey)
    ensures KeyLess(a, b) <==> LexLess(KeyBytes(a.tsNs, a.traceId), KeyBytes(b.tsNs, b.traceId))
    ensures a == b <==> KeyBytes(a.tsNs, a.traceId) == KeyBytes(b.tsNs, b.traceId)
  {
    U64Fits(a.tsNs);
    U64Fits(b.tsNs);
    BigEndianOrders(a.tsNs, b.tsNs, 8, a.traceId, b.traceId);
    BigEndianRoundTrips(a.tsNs, 8);
    BigEndianRoundTrips(b.tsNs, 8);
    var ka, kb := KeyBytes(a.tsNs, a.traceId), KeyBytes(b.tsNs, b.traceId);
    assert ka[..8] == BigEndian(a.tsNs, 8) && ka[8..] == a.traceId;
    assert kb[..8] == BigEndian(b.tsNs, 8) && kb[8..] == b.traceId;
  }

  lemma {:induction false} LexTotal(a: Bytes, b: Bytes)
    ensures a == b || LexLess(a, b) || LexLess(b, a)
    ensures !(LexLess(a, b) && LexLess(b, a)) && !LexLess(a, a)
  {
    if a != [] { LexTotal(a[1..], a[1..]); }
    if a != [] && b != [] {
      LexTotal(a[1..], b[1..]);
      assert a == [a[0]] + a[1..] && b == [b[0]] + b[1..];
    }
  }

  lemma {:induction false} LexTransitive(a: Bytes, b: Bytes, c: Bytes)
    requires LexLess(a, b) && LexLess(b, c)
    ensures LexLess(a, c)
  {
    if a != [] && a[0] == b[0] == c[0] {
      LexTransitive(a[1..], b[1..], c[1..]);
    }
  }

  lemma KeyOrder(a: OrderKey, b: OrderKey, c: OrderKey)
    ensures a == b || KeyLess(a, b) || KeyLess(b, a)
    ensures !KeyLess(a, a)
    ensures KeyLess(a, b) && KeyLess(b, c) ==> KeyLess(a, c)
  {
    LexTotal(a.traceId, b.traceId);
    if KeyLess(a, b) && KeyLess(b, c) && a.tsNs == c.tsNs {
      LexTransitive(a.traceId, b.traceId, c.traceId);
    }
  }

  // ---------------------------------------------------------------- the ordered map of the in-memory sink

  /** Rows in strictly ascending key order: the map's iteration order. */
  predicate Ascending(rows: seq<TraceRow>) {
    forall i, j :: 0 <= i < j < |rows| ==> KeyLess(KeyOf(rows[i]), KeyOf(rows[j]))
  }

  predicate HasKey(rows: seq<TraceRow>, k: OrderKey) {
    exists i :: 0 <= i < |rows| && KeyOf(rows[i]) == k
  }

  /** Insert a row at its place. */
  function Insert(rows: seq<TraceRow>, row: TraceRow): (r: seq<TraceRow>)
    ensures multiset(r) == multiset(rows) + multiset{row}
  {
    if rows == [] || KeyLess(KeyOf(row), KeyOf(rows[0])) then [row] + rows
    else
      assert rows == [rows[0]] + rows[1..];
      [rows[0]] + Insert(rows[1..], row)
  }

  lemma {:induction false} InsertKeepsOrder(rows: seq<TraceRow>, row: TraceRow)
    requires Ascending(rows) && !HasKey(rows, KeyOf(row))
    ensures Ascending(Insert(rows, row))
  {
    hide LexLess;
    if rows != [] {
      var first := rows[0];
      KeyOrder(KeyOf(row), KeyOf(first), KeyOf(first));
      if KeyLess(KeyOf(row), KeyOf(first)) {
        forall j | 0 < j < |rows| ensures KeyLess(KeyOf(row), KeyOf(rows[j])) {
          KeyOrder(KeyOf(row), KeyOf(first), KeyOf(rows[j]));
        }
      } else {
        assert KeyOf(first) != KeyOf(row);
        forall i | 0 <= i < |rows[1..]| ensures KeyOf(rows[1..][i]) != KeyOf(row) {
          assert rows[1..][i] == rows[i + 1];
        }
        InsertKeepsOrder(rows[1..], row);
        var rest := Insert(rows[1..], row);
        forall j | 0 <= j < |rest| ensures KeyLess(KeyOf(first), KeyOf(rest[j])) {
          assert rest[j] in multiset(rest);
          if rest[j] != row {
            var k :| 0 <= k < |rows[1..]| && rows[1..][k] == rest[j];
            assert rows[k + 1] == rest[j];
          }
        }
      }
    }
  }

  /** The rows stamped in `[start, end)`, in order. */
  function Between(rows: seq<TraceRow>, start: u64, end: u64): seq<TraceRow> {
    if rows == [] then []
    else (if start <= rows[0].tripTsNs < end then [rows[0]] else []) + Between(rows[1..], start, end)
  }

  /** The rows from key `lo` (inclusive) to key `hi` (exclusive). */
  function KeyRange(rows: seq<TraceRow>, lo: OrderKey, hi: OrderKey): seq<TraceRow> {
    if rows == [] then []
    else
      var k := KeyOf(rows[0]);
      (if !KeyLess(k, lo) && KeyLess(k, hi) then [rows[0]] else []) + KeyRange(rows[1..], lo, hi)
  }

  /** With empty identifiers as bounds, the key range is the half-open time range. */
  lemma {:induction false} KeyRangeIsBetween(rows: seq<TraceRow>, start: u64, end: u64)
    ensures KeyRange(rows, OrderKey(start, []), OrderKey(end, [])) == Between(rows, start, end)
  {
    if rows != [] {
      KeyRangeIsBetween(rows[1..], start, end);
    }
  }

  class InMemorySink {
    var rows: seq<TraceRow>

    ghost predicate Valid()
      reads this
    {
      Ascending(rows)
    }

    constructor ()
      ensures Valid() && rows == []
    {
      rows := [];
    }

    /** Persist a row; an existing key is an error and changes nothing. Returns whether it was stored. */
    method Put(row: TraceRow) returns (stored: bool)
      requires Valid()
      modifies this
      ensures Valid()
      ensures stored <==> !HasKey(old(rows), KeyOf(row))
      ensures rows == if stored then Insert(old(rows), row) else old(rows)
    {
      if HasKey(rows, KeyOf(row)) {
        return false;
      }
      InsertKeepsOrder(rows, row);
      rows := Insert(rows, row);
      stored := true;
    }

    /** The rows stamped in `[start, end)`, chronologically. The map's range panics on inverted bounds. */
    function Range(start: u64, end: u64): (r: seq<TraceRow>)
      reads this
      requires start <= end
      ensures r == Between(rows, start, end)
    {
      KeyRangeIsBetween(rows, start, end);
      KeyRange(rows, OrderKey(start, []), OrderKey(end, []))
    }
  }

  // ---------------------------------------------------------------- the byte-keyed store

  /** An entry of the abstract ordered byte map. */
  datatype Entry = Entry(key: Bytes, value: CausalTrace)

  predicate HasBytes(db: seq<Entry>, key: Bytes) {
    exists i :: 0 <= i < |db| && db[i].key == key
  }

  function InsertBytes(db: seq<Entry>, e: Entry): seq<Entry> {
    if db == [] || LexLess(e.key, db[0].key) then [e] + db else [db[0]] + InsertBytes(db[1..], e)
  }

  /** Entries in strictly ascending byte order of their keys: the store's iteration order. */
  ghost predicate AscendingBytes(db: seq<Entry>) {
    forall i, j :: 0 <= i < j < |db| ==> LexLess(db[i].key, db[j].key)
  }

  /** The value held under a key. */
  function Lookup(db: seq<Entry>, key: Bytes): (r: Option<CausalTrace>)
    ensures r.Some? <==> HasBytes(db, key)
  {
    if db == [] then None
    else if db[0].key == key then Some(db[0].value)
    else Lookup(db[1..], key)
  }

  /** Inserting keeps the order, whatever else the store holds. */
  lemma {:induction false} InsertBytesKeepsOrder(db: seq<Entry>, e: Entry)
    requires AscendingBytes(db) && !HasBytes(db, e.key)
    ensures AscendingBytes(InsertBytes(db, e))
    ensures forall x :: x in InsertBytes(db, e) <==> x in db || x == e
  {
    hide LexLess;
    if db != [] {
      var first, rest := db[0], db[1..];
      LexTotal(e.key, first.key);
      if LexLess(e.key, first.key) {
        forall j | 0 < j < |db| ensures LexLess(e.key, db[j].key) {
          LexTransitive(e.key, first.key, db[j].key);
        }
      } else {
        assert !HasBytes(rest, e.key) by {
          forall i | 0 <= i < |rest| ensures rest[i].key != e.key { assert rest[i] == db[i + 1]; }
        }
        InsertBytesKeepsOrder(rest, e);
        var more := InsertBytes(rest, e);
        assert first.key != e.key;
        forall j | 0 <= j < |more| ensures LexLess(first.key, more[j].key) {
          assert more[j] in more;
          if more[j] != e {
            var k :| 0 <= k < |rest| && rest[k] == more[j];
            assert db[k + 1] == more[j];
          }
        }
      }
    }
  }

  /** Inserting a new key changes what is held under it, and nothing else. */
  lemma {:induction false} InsertBytesLookup(db: seq<Entry>, e: Entry, key: Bytes)
    requires !HasBytes(db, e.key)
    ensures Lookup(InsertBytes(db, e), key) == if key == e.key then Some(e.value) else Lookup(db, key)
  {
    hide LexLess;
    if db != [] && !LexLess(e.key, db[0].key) {
      assert !HasBytes(db[1..], e.key) by {
        forall i | 0 <= i < |db[1..]| ensures db[1..][i].key != e.key { assert db[1..][i] == db[i + 1]; }
      }
      InsertBytesLookup(db[1..], e, key);
    } else {
      assert ([e] + db)[1..] == db;
    }
  }

  lemma InsertBytesLength(db: seq<Entry>, e: Entry)
    ensures |InsertBytes(db, e)| == |db| + 1
  {
  }

  /** First position whose key is not below `key`: where a seek lands. */
  function Seek(db: seq<Entry>, key: Bytes): (i: nat)
    ensures i <= |db|
  {
    if db == [] || !LexLess(db[0].key, key) then 0 else 1 + Seek(db[1..], key)
  }

  /** What a scan from the head of `db` pushes before it breaks. */
  function Scan(db: seq<Entry>, end: u64): seq<TraceRow> {
    if db == [] then []
    else if |db[0].key| < 8 then Scan(db[1..], end)
    else if FromBigEndian(db[0].key[..8]) >= end then []
    else [FromTrace(db[0].value)] + Scan(db[1..], end)
  }

  class RocksDbSink {
    var db: seq<Entry>
    var count: nat

    /** The store iterates in key order, and the count is its size. */
    ghost predicate Valid()
      reads this
    {
      AscendingBytes(db) && count == |db|
    }

    constructor ()
      ensures Valid() && db == []
    {
      db, count := [], 0;
    }

    /** Persist a row; an existing key is an error and changes nothing. Returns whether it was stored. */
    method Put(row: TraceRow) returns (stored: bool)
      requires Valid()
      modifies this
      ensures Valid()
      ensures stored <==> Lookup(old(db), row.RocksdbKey()) == None
      ensures forall k ::
        Lookup(db, k) == if stored && k == row.RocksdbKey() then Some(row.evidence) else Lookup(old(db), k)
      ensures db == if stored then InsertBytes(old(db), Entry(row.RocksdbKey(), row.evidence)) else old(db)
    {
      hide LexLess, InsertBytes, Lookup, TraceRow.RocksdbKey, AscendingBytes;
      var key := row.RocksdbKey();
      if HasBytes(db, key) {
        return false;
      }
      var e := Entry(key, row.evidence);
      InsertBytesKeepsOrder(db, e);
      InsertBytesLength(db, e);
      forall k { InsertBytesLookup(db, e, k); }
      db := InsertBytes(db, e);
      count := count + 1;
      stored := true;
    }

    /** Seek to the start, push rows until a timestamp reaches the end. */
    method Range(start: u64, end: u64) returns (out: seq<TraceRow>)
      ensures out == Scan(db[Seek(db, BigEndian(start, 8))..], end)
    {
      hide BigEndian, FromBigEndian;
      out := [];
      var i := Seek(db, BigEndian(start, 8));
      ghost var from := i;
      while i < |db|
        invariant from <= i <= |db|
        invariant out + Scan(db[i..], end) == Scan(db[from..], end)
      {
        var e := db[i];
        assert db[i..][1..] == db[i + 1..];
        i := i + 1;
        if |e.key| < 8 {
          continue;
        }
        var ts := FromBigEndian(e.key[..8]);
        if ts >= end {
          return;
        }
        ConcatAssociative(out, [FromTrace(e.value)], Scan(db[i..], end));
        out := out + [FromTrace(e.value)];
      }
    }
  }

  // ---------------------------------------------------------------- agreement

  function EncodeRows(rows: seq<TraceRow>): (db: seq<Entry>)
    ensures |db| == |rows| && forall i :: 0 <= i < |db| ==> db[i] == Entry(rows[i].RocksdbKey(), rows[i].evidence)
  {
    seq(|rows|, i requires 0 <= i < |rows| => Entry(rows[i].RocksdbKey(), rows[i].evidence))
  }

  /** Rows rebuilt from their evidence are the rows that were stored. */
  ghost predicate Rebuildable(rows: seq<TraceRow>) {
    forall i :: 0 <= i < |rows| ==> rows[i] == FromTrace(rows[i].evidence)
  }

  lemma RowKeysAgree(r: TraceRow, s: TraceRow)
    ensures KeyOf(r) == KeyOf(s) <==> r.RocksdbKey() == s.RocksdbKey()
    ensures KeyLess(KeyOf(r), KeyOf(s)) <==> LexLess(r.RocksdbKey(), s.RocksdbKey())
  {
    KeysAgree(KeyOf(r), KeyOf(s));
  }

  lemma SameKeysHeld(rows: seq<TraceRow>, row: TraceRow)
    ensures HasKey(rows, KeyOf(row)) <==> HasBytes(EncodeRows(rows), row.RocksdbKey())
  {
    hide KeyOf, TraceRow.RocksdbKey;
    forall i | 0 <= i < |rows|
      ensures KeyOf(rows[i]) == KeyOf(row) <==> EncodeRows(rows)[i].key == row.RocksdbKey()
    {
      RowKeysAgree(rows[i], row);
    }
  }

  lemma {:induction false} InsertsAgree(rows: seq<TraceRow>, row: TraceRow)
    ensures EncodeRows(Insert(rows, row)) == InsertBytes(EncodeRows(rows), Entry(row.RocksdbKey(), row.evidence))
  {
    hide KeyOf, TraceRow.RocksdbKey, LexLess, KeyLess;
    if rows != [] {
      RowKeysAgree(row, rows[0]);
      assert EncodeRows(rows)[1..] == EncodeRows(rows[1..]);
      InsertsAgree(rows[1..], row);
    }
  }

  /** Both sinks accept and reject the same rows and stay in step. */
  lemma PutsAgree(rows: seq<TraceRow>, row: TraceRow)
    ensures HasKey(rows, KeyOf(row)) <==> HasBytes(EncodeRows(rows), row.RocksdbKey())
    ensures EncodeRows(Insert(rows, row)) == InsertBytes(EncodeRows(rows), Entry(row.RocksdbKey(), row.evidence))
  {
    SameKeysHeld(rows, row);
    InsertsAgree(rows, row);
  }

  lemma {:induction false} ScanFromAgrees(rows: seq<TraceRow>, start: u64, end: u64)
    requires Ascending(rows) && Rebuildable(rows) && start <= end
    requires forall i :: 0 <= i < |rows| ==> start <= rows[i].tripTsNs
    ensures Scan(EncodeRows(rows), end) == Between(rows, start, end)
  {
    hide BigEndian, FromBigEndian, LexLess;
    if rows != [] {
      var ts := rows[0].tripTsNs;
      U64Fits(ts);
      BigEndianRoundTrips(ts, 8);
      assert rows[0].RocksdbKey()[..8] == BigEndian(ts, 8);
      assert EncodeRows(rows)[1..] == EncodeRows(rows[1..]);
      if ts >= end {
        NothingBetween(rows, start, end);
      } else {
        ScanFromAgrees(rows[1..], start, end);
      }
    }
  }

  lemma {:induction false} NothingBetween(rows: seq<TraceRow>, start: u64, end: u64)
    requires Ascending(rows) && rows != [] && rows[0].tripTsNs >= end
    ensures Between(rows, start, end) == []
  {
    hide LexLess;
    if |rows| > 1 {
      NothingBetween(rows[1..], start, end);
    }
  }

  /** On the same stored rows, both sinks answer every range query with the same rows in the same order. */
  lemma {:induction false} RangesAgree(rows: seq<TraceRow>, start: u64, end: u64)
    requires Ascending(rows) && Rebuildable(rows) && start <= end
    ensures var db := EncodeRows(rows);
      Scan(db[Seek(db, BigEndian(start, 8))..], end) == Between(rows, start, end)
  {
    hide BigEndian, LexLess, Scan;
    var db := EncodeRows(rows);
    if rows == [] {
      ScanFromAgrees([], start, end);
      assert db[0..] == EncodeRows([]);
    } else {
      KeysAgree(KeyOf(rows[0]), OrderKey(start, []));
      assert KeyBytes(start, []) == BigEndian(start, 8);
      NotBelowEmpty(rows[0].traceId);
      if rows[0].tripTsNs < start {
        assert db[1..] == EncodeRows(rows[1..]);
        RangesAgree(rows[1..], start, end);
        var k := Seek(db[1..], BigEndian(start, 8));
        assert db[1..][k..] == db[k + 1..];
      } else {
        forall i | 0 < i < |rows| ensures start <= rows[i].tripTsNs {
          assert KeyLess(KeyOf(rows[0]), KeyOf(rows[i]));
        }
        ScanFromAgrees(rows, start, end);
        assert db[0..] == db;
      }
    }
  }

  lemma NotBelowEmpty(a: Bytes)
    ensures !LexLess(a, [])
  {
  }

  // ---------------------------------------------------------------- the two sinks side by side

  /** The two sinks hold the same rows, in the same order. */
  ghost predicate InStep(mem: InMemorySink, rocks: RocksDbSink)
    reads mem, rocks
  {
    mem.Valid() && rocks.Valid() && rocks.db == EncodeRows(mem.rows) && Rebuildable(mem.rows)
  }

  /** Some row before position `i` has its key. */
  ghost predicate Repeats(input: seq<TraceRow>, i: nat)
    requires i < |input|
  {
    exists j :: 0 <= j < i && KeyOf(input[j]) == KeyOf(input[i])
  }

  /** Of the first `n` rows offered, those accepted are the first of their keys, and they are what is held. */
  ghost predicate Accounts(input: seq<TraceRow>, n: nat, rows: seq<TraceRow>, accepted: seq<bool>)
    requires n <= |input|
  {
    && |accepted| == n && Rebuildable(rows)
    && (forall i :: 0 <= i < n ==> (accepted[i] <==> !Repeats(input, i)))
    && (forall row :: row in rows <==> exists i :: 0 <= i < n && accepted[i] && input[i] == row)
  }

  /** Feed the same rows to both sinks. Each accepts exactly the first row of every key, and they end up in
      step. */
  method StoreBoth(input: seq<TraceRow>)
    returns (mem: InMemorySink, rocks: RocksDbSink, accepted: seq<bool>, accepted': seq<bool>)
    requires Rebuildable(input)
    ensures fresh(mem) && fresh(rocks) && InStep(mem, rocks)
    ensures accepted == accepted' && |accepted| == |input|
    ensures forall i :: 0 <= i < |input| ==> (accepted[i] <==> !Repeats(input, i))
    ensures forall row :: row in mem.rows <==> exists i :: 0 <= i < |input| && accepted[i] && input[i] == row
  {
    mem := new InMemorySink();
    rocks := new RocksDbSink();
    accepted, accepted' := [], [];
    assert Accounts(input, 0, mem.rows, accepted);
    hide Accounts;
    for n := 0 to |input|
      invariant fresh(mem) && fresh(rocks) && InStep(mem, rocks)
      invariant accepted == accepted' && Accounts(input, n, mem.rows, accepted)
    {
      hide KeyOf, Insert, InsertBytes, TraceRow.RocksdbKey, Rebuildable, AscendingBytes, Ascending, HasKey, HasBytes,
        Lookup;
      ghost var rows, flags := mem.rows, accepted;
      PutsAgree(rows, input[n]);
      HeldIffRepeated(input, n, rows, flags);
      var a := mem.Put(input[n]);
      var b := rocks.Put(input[n]);
      HoldsOneMore(input, n, rows, flags, a);
      RebuildableNow(input, n + 1, mem.rows, flags + [a]);
      accepted, accepted' := accepted + [a], accepted' + [b];
    }
    AccountsMeans(input, |input|, mem.rows, accepted);
  }

  lemma RebuildableNow(input: seq<TraceRow>, n: nat, rows: seq<TraceRow>, accepted: seq<bool>)
    requires n <= |input| && Accounts(input, n, rows, accepted)
    ensures Rebuildable(rows)
  {
  }

  lemma AccountsMeans(input: seq<TraceRow>, n: nat, rows: seq<TraceRow>, accepted: seq<bool>)
    requires n <= |input| && Accounts(input, n, rows, accepted)
    ensures |accepted| == n
    ensures forall i :: 0 <= i < n ==> (accepted[i] <==> !Repeats(input, i))
    ensures forall row :: row in rows <==> exists i :: 0 <= i < n && accepted[i] && input[i] == row
  {
  }

  /** A key is held exactly when an earlier row had it. */
  lemma HeldIffRepeated(input: seq<TraceRow>, n: nat, rows: seq<TraceRow>, accepted: seq<bool>)
    requires n < |input| && Accounts(input, n, rows, accepted)
    ensures HasKey(rows, KeyOf(input[n])) <==> Repeats(input, n)
  {
    hide KeyOf, Rebuildable;
    if HasKey(rows, KeyOf(input[n])) {
      var k :| 0 <= k < |rows| && KeyOf(rows[k]) == KeyOf(input[n]);
      assert rows[k] in rows;
    }
    if Repeats(input, n) {
      var j := FirstOf(input, n);
      assert input[j] in rows;
      var k :| 0 <= k < |rows| && rows[k] == input[j];
    }
  }

  /** The first row with a repeated key. */
  lemma {:induction false} FirstOf(input: seq<TraceRow>, n: nat) returns (j: nat)
    requires n < |input| && Repeats(input, n)
    ensures j < n && KeyOf(input[j]) == KeyOf(input[n]) && !Repeats(input, j)
  {
    hide KeyOf;
    j :| 0 <= j < n && KeyOf(input[j]) == KeyOf(input[n]);
    if Repeats(input, j) {
      j := FirstOf(input, j);
    }
  }

  lemma HoldsOneMore(input: seq<TraceRow>, n: nat, rows: seq<TraceRow>, accepted: seq<bool>, a: bool)
    requires n < |input| && Accounts(input, n, rows, accepted) && Rebuildable(input) && (a <==> !Repeats(input, n))
    ensures Accounts(input, n + 1, if a then Insert(rows, input[n]) else rows, accepted + [a])
  {
    hide Insert, FromTrace, KeyOf, Repeats;
    var rows', flags := if a then Insert(rows, input[n]) else rows, accepted + [a];
    forall row ensures row in rows' <==> row in rows || (a && row == input[n]) {
      assert row in rows' <==> row in multiset(rows');
      assert row in rows <==> row in multiset(rows);
    }
    forall row ensures row in rows' <==> exists i :: 0 <= i < n + 1 && flags[i] && input[i] == row {
      if row in rows {
        var i :| 0 <= i < n && accepted[i] && input[i] == row;
        assert flags[i];
      } else if row in rows' {
        assert flags[n] && input[n] == row;
      }
      if i :| 0 <= i < n + 1 && flags[i] && input[i] == row {
        assert i < n ==> accepted[i];
      }
    }
    forall i | 0 <= i < |rows'| ensures rows'[i] == FromTrace(rows'[i].evidence) {
      assert rows'[i] in rows';
    }
  }

  /** Sinks in step answer every range query alike. */
  method AskBoth(mem: InMemorySink, rocks: RocksDbSink, start: u64, end: u64)
    returns (a: seq<TraceRow>, b: seq<TraceRow>)
    requires InStep(mem, rocks) && start <= end
    ensures a == b == Between(mem.rows, start, end)
  {
    hide Scan, Seek, BigEndian, Between;
    a := mem.Range(start, end);
    b := rocks.Range(start, end);
    RangesAgree(mem.rows, start, end);
  }

  lemma {:induction false} BetweenExact(rows: seq<TraceRow>, start: u64, end: u64)
    ensures forall row :: row in Between(rows, start, end) <==> row in rows && start <= row.tripTsNs < end
  {
    if rows != [] {
      BetweenExact(rows[1..], start, end);
      assert rows == [rows[0]] + rows[1..];
    }
  }

  /** From empty to an answer: the same rows offered to both sinks meet the same verdicts, and any range query
      is then answered with the same rows, those accepted whose time lies in the range. */
  method StoreAndAsk(input: seq<TraceRow>, start: u64, end: u64)
    returns (accepted: seq<bool>, accepted': seq<bool>, answer: seq<TraceRow>, answer': seq<TraceRow>)
    requires Rebuildable(input) && start <= end
    ensures accepted == accepted' && |accepted| == |input|
    ensures forall i :: 0 <= i < |input| ==> (accepted[i] <==> !Repeats(input, i))
    ensures answer == answer'
    ensures forall row :: row in answer <==>
      start <= row.tripTsNs < end && exists i :: 0 <= i < |input| && accepted[i] && input[i] == row
  {
    hide Repeats, Between, Rebuildable, InMemorySink.Valid, RocksDbSink.Valid, EncodeRows;
    var mem, rocks;
    mem, rocks, accepted, accepted' := StoreBoth(input);
    answer, answer' := AskBoth(mem, rocks, start, end);
    BetweenExact(mem.rows, start, end);
  }
}
