/** The address tables: rows are stored under the big-endian bytes of their first address, and an
    address is looked up by seeking the greatest stored key not above it. */
module GeoTables {
  import opened Words

  type byte = n: nat | n < 256

  // ----- keys -----

  /** The four bytes of a 32-bit number, most significant first. */
  function BigEndian(n: u32): seq<byte> {
    [n / 0x100_0000, n / 0x1_0000 % 0x100, n / 0x100 % 0x100, n % 0x100]
  }

  /** The store's order of keys: byte by byte, a proper prefix first. */
  predicate BytesLess(a: seq<byte>, b: seq<byte>) {
    b != [] && (a == [] || a[0] < b[0] || (a[0] == b[0] && BytesLess(a[1..], b[1..])))
  }

  lemma Less4(a: seq<byte>, b: seq<byte>)
    requires |a| == |b| == 4
    ensures BytesLess(a, b) <==>
      || a[0] < b[0]
      || (a[0] == b[0] && (a[1] < b[1]
      || (a[1] == b[1] && (a[2] < b[2]
      || (a[2] == b[2] && a[3] < b[3])))))
  {
    var a1, b1 := a[1..], b[1..];
    var a2, b2 := a1[1..], b1[1..];
    var a3, b3 := a2[1..], b2[1..];
    assert BytesLess(a3, b3) <==> a[3] < b[3] by { assert !BytesLess(a3[1..], b3[1..]); }
    assert BytesLess(a2, b2) <==> a[2] < b[2] || (a[2] == b[2] && BytesLess(a3, b3));
    assert BytesLess(a1, b1) <==> a[1] < b[1] || (a[1] == b[1] && BytesLess(a2, b2));
  }

  /** Comparing two numbers digit by digit, in base 256. */
  lemma DigitOrder(high: nat, low: nat, high': nat, low': nat)
    requires low < 256 && low' < 256
    ensures high * 256 + low < high' * 256 + low' <==> high < high' || (high == high' && low < low')
  {
  }

  lemma Digits(n: u32)
    ensures n == n / 256 * 256 + n % 256
    ensures n / 256 == n / 0x1_0000 * 256 + n / 256 % 256
    ensures n / 0x1_0000 == n / 0x100_0000 * 256 + n / 0x1_0000 % 256
  {
  }

  /** Byte order of the keys is the order of the numbers. */
  lemma ByteOrderIsNumericOrder(m: u32, n: u32)
    ensures BytesLess(BigEndian(m), BigEndian(n)) <==> m < n
  {
    Less4(BigEndian(m), BigEndian(n));
    Digits(m);
    Digits(n);
    DigitOrder(m / 256, m % 256, n / 256, n % 256);
    DigitOrder(m / 0x1_0000, m / 256 % 256, n / 0x1_0000, n / 256 % 256);
    DigitOrder(m / 0x100_0000, m / 0x1_0000 % 256, n / 0x100_0000, n / 0x1_0000 % 256);
  }

  /** Distinct numbers have distinct keys. */
  lemma KeysDistinct(m: u32, n: u32)
    ensures BigEndian(m) == BigEndian(n) <==> m == n
  {
    if BigEndian(m) == BigEndian(n) {
      ByteOrderIsNumericOrder(m, n);
      ByteOrderIsNumericOrder(n, m);
    }
  }

  // ----- rows -----

  /** A table row. The importer reads `ipTo` and drops it. */
  datatype Row<V> = Row(ipFrom: u32, ipTo: u32, payload: V) {
    predicate Contains(ip: u32) { ipFrom <= ip <= ipTo }
  }

  /** A line of the input: a row, or one that does not parse. */
  datatype Line<V> = Parsed(row: Row<V>) | Malformed

  /** The rows before the first malformed line. */
  function Readable<V>(lines: seq<Line<V>>): seq<Row<V>> {
    if lines == [] || lines[0].Malformed? then [] else [lines[0].row] + Readable(lines[1..])
  }

  /** These are the rows of the first so many lines, and then the input ends or a line is malformed. */
  ghost predicate AreRowsRead<V>(lines: seq<Line<V>>, rows: seq<Row<V>>) {
    && |rows| <= |lines|
    && (forall i | 0 <= i < |rows| :: lines[i] == Parsed(rows[i]))
    && (|rows| < |lines| ==> lines[|rows|].Malformed?)
  }

  lemma {:induction false} ReadableByPosition<V>(lines: seq<Line<V>>, rows: seq<Row<V>>)
    ensures rows == Readable(lines) <==> AreRowsRead(lines, rows)
  {
    if lines == [] || lines[0].Malformed? {
      assert lines != [] ==> lines[0].Malformed?;
    } else {
      assert lines[0] == Parsed(lines[0].row);
      if rows != [] {
        ReadableByPosition(lines[1..], rows[1..]);
        assert rows == [rows[0]] + rows[1..];
        RowsReadTail(lines, rows);
      }
    }
  }

  lemma RowsReadTail<V>(lines: seq<Line<V>>, rows: seq<Row<V>>)
    requires lines != [] && rows != []
    ensures AreRowsRead(lines, rows) <==> lines[0] == Parsed(rows[0]) && AreRowsRead(lines[1..], rows[1..])
  {
    if lines[0] == Parsed(rows[0]) && AreRowsRead(lines[1..], rows[1..]) {
      forall i | 0 <= i < |rows| ensures lines[i] == Parsed(rows[i]) {
        if i > 0 { assert lines[1..][i - 1] == Parsed(rows[1..][i - 1]); }
      }
    }
    if AreRowsRead(lines, rows) {
      forall i | 0 <= i < |rows| - 1 ensures lines[1..][i] == Parsed(rows[1..][i]) {
        assert lines[i + 1] == Parsed(rows[i + 1]);
      }
    }
  }

  /** What the store holds after these rows were put in order. */
  function Stored<V>(rows: seq<Row<V>>): map<seq<byte>, V> {
    if rows == [] then map[] else
      var last := rows[|rows| - 1];
      Stored(rows[..|rows| - 1])[BigEndian(last.ipFrom) := last.payload]
  }

  /** The plain scan: of the rows that start at or below ip, those that start highest, and of
      these the one imported last. */
  function Scan<V>(rows: seq<Row<V>>, ip: u32): Option<Row<V>> {
    if rows == [] then None else
      var last := rows[|rows| - 1];
      var best := Scan(rows[..|rows| - 1], ip);
      if last.ipFrom <= ip && (best.None? || best.value.ipFrom <= last.ipFrom) then Some(last) else best
  }

  /** k is the greatest of the keys not above the target. */
  ghost predicate IsFloor(keys: set<seq<byte>>, target: seq<byte>, k: seq<byte>) {
    && k in keys && !BytesLess(target, k)
    && forall j | j in keys :: BytesLess(target, j) || !BytesLess(k, j)
  }

  lemma {:induction false} BytesLessTotal(a: seq<byte>, b: seq<byte>)
    ensures BytesLess(a, b) || BytesLess(b, a) || a == b
  {
    if a != [] && b != [] && a[0] == b[0] {
      BytesLessTotal(a[1..], b[1..]);
      assert a == [a[0]] + a[1..] && b == [b[0]] + b[1..];
    }
  }

  lemma {:induction false} BytesLessTransitive(a: seq<byte>, b: seq<byte>, c: seq<byte>)
    requires BytesLess(a, b) && BytesLess(b, c)
    ensures BytesLess(a, c)
  {
    if a != [] && a[0] == b[0] && b[0] == c[0] { BytesLessTransitive(a[1..], b[1..], c[1..]); }
  }

  lemma {:induction false} BytesLessIrreflexive(a: seq<byte>)
    ensures !BytesLess(a, a)
  {
    if a != [] { BytesLessIrreflexive(a[1..]); }
  }

  lemma {:induction false} StoredKeys<V>(rows: seq<Row<V>>, k: seq<byte>)
    ensures k in Stored(rows) <==> exists r :: r in rows && k == BigEndian(r.ipFrom)
  {
    if rows != [] { StoredKeys(rows[..|rows| - 1], k); }
  }

  /** Seeking the floor key in the store finds what the scan finds. */
  lemma {:induction false} ScanIsFloor<V>(rows: seq<Row<V>>, ip: u32)
    ensures Scan(rows, ip).None? ==> forall k | k in Stored(rows) :: BytesLess(BigEndian(ip), k)
    ensures Scan(rows, ip).Some? ==>
      var r := Scan(rows, ip).value;
      && IsFloor(Stored(rows).Keys, BigEndian(ip), BigEndian(r.ipFrom))
      && Stored(rows)[BigEndian(r.ipFrom)] == r.payload
  {
    if rows != [] {
      var last := rows[|rows| - 1];
      var before := rows[..|rows| - 1];
      ScanIsFloor(before, ip);
      ByteOrderIsNumericOrder(ip, last.ipFrom);
      if Scan(before, ip).Some? { KeysDistinct(Scan(before, ip).value.ipFrom, last.ipFrom); }
      forall k | k in Stored(rows)
        ensures k == BigEndian(last.ipFrom) || k in Stored(before)
      { }
      if Scan(before, ip).Some? {
        var b := Scan(before, ip).value;
        ByteOrderIsNumericOrder(b.ipFrom, last.ipFrom);
        ByteOrderIsNumericOrder(last.ipFrom, b.ipFrom);
        forall k | k in Stored(before) && !BytesLess(BigEndian(ip), k) && b.ipFrom <= last.ipFrom
          ensures !BytesLess(BigEndian(last.ipFrom), k)
        {
          if b.ipFrom < last.ipFrom && BytesLess(BigEndian(last.ipFrom), k) {
            BytesLessTransitive(BigEndian(b.ipFrom), BigEndian(last.ipFrom), k);
          }
        }
      }
      BytesLessIrreflexive(BigEndian(last.ipFrom));
    }
  }

  /** A greater candidate takes over as the floor. */
  lemma FloorMoves(keys: set<seq<byte>>, target: seq<byte>, j: seq<byte>, k: seq<byte>)
    requires IsFloor(keys, target, j) && BytesLess(j, k) && !BytesLess(target, k)
    ensures IsFloor(keys + {k}, target, k)
  {
    BytesLessIrreflexive(k);
    forall i | i in keys && !BytesLess(target, i) ensures !BytesLess(k, i) {
      if BytesLess(k, i) { BytesLessTransitive(j, k, i); }
    }
  }

  lemma FloorUnique(keys: set<seq<byte>>, target: seq<byte>, j: seq<byte>, k: seq<byte>)
    requires IsFloor(keys, target, j) && IsFloor(keys, target, k)
    ensures j == k
  {
    BytesLessTotal(j, k);
  }

  /** The scan, said by position: its answer is None exactly if every row starts above ip, and
      otherwise row i of the list, with every other candidate starting lower, or at the same
      address and imported earlier. */
  lemma {:induction false} ScanPicksLastGreatest<V>(rows: seq<Row<V>>, ip: u32) returns (i: int)
    ensures Scan(rows, ip).None? <==> forall r | r in rows :: r.ipFrom > ip
    ensures Scan(rows, ip).None? <==> i == -1
    ensures Scan(rows, ip).Some? ==>
      && 0 <= i < |rows| && rows[i] == Scan(rows, ip).value && rows[i].ipFrom <= ip
      && forall j | 0 <= j < |rows| && rows[j].ipFrom <= ip ::
           rows[j].ipFrom < rows[i].ipFrom || (rows[j].ipFrom == rows[i].ipFrom && j <= i)
  {
    i := -1;
    if rows != [] {
      var last := rows[|rows| - 1];
      i := ScanPicksLastGreatest(rows[..|rows| - 1], ip);
      if last.ipFrom <= ip && (i == -1 || rows[i].ipFrom <= last.ipFrom) { i := |rows| - 1; }
    }
  }

  /** No two rows share an address. */
  ghost predicate Disjoint<V>(rows: seq<Row<V>>) {
    && (forall r | r in rows :: r.ipFrom <= r.ipTo)
    && forall i, j, ip: u32 | 0 <= i < j < |rows| :: !(rows[i].Contains(ip) && rows[j].Contains(ip))
  }

  /** Where rows do not overlap, an address that some row covers is answered with that row,
      though `ipTo` is not stored. */
  lemma CoveredAddressIsFound<V>(rows: seq<Row<V>>, ip: u32, i: nat)
    requires Disjoint(rows) && i < |rows| && rows[i].Contains(ip)
    ensures Scan(rows, ip) == Some(rows[i])
  {
    var j := ScanPicksLastGreatest(rows, ip);
    assert rows[i] in rows;
    assert rows[i].Contains(rows[j].ipFrom) && rows[j].Contains(rows[j].ipFrom);
  }

  /** So rows that tile the address space are answered exactly: with the one row that contains the
      address. */
  lemma TilingIsAnsweredExactly<V>(rows: seq<Row<V>>, ip: u32)
    requires Disjoint(rows) && exists i :: 0 <= i < |rows| && rows[i].Contains(ip)
    ensures Scan(rows, ip).Some? && forall r | r in rows :: r.Contains(ip) <==> r == Scan(rows, ip).value
  {
    var i :| 0 <= i < |rows| && rows[i].Contains(ip);
    CoveredAddressIsFound(rows, ip, i);
    forall j: nat | j < |rows| && rows[j].Contains(ip) ensures rows[j] == rows[i] {
      CoveredAddressIsFound(rows, ip, j);
    }
  }

  /** An address that no row contains is answered with a row that ends below it, whenever some row
      starts below it: gaps do not show as None. */
  lemma GapAnswersRowBelow<V>(rows: seq<Row<V>>, ip: u32)
    requires forall r | r in rows :: !r.Contains(ip)
    ensures Scan(rows, ip).Some? <==> exists r :: r in rows && r.ipFrom <= ip
    ensures Scan(rows, ip).Some? ==> Scan(rows, ip).value in rows && Scan(rows, ip).value.ipTo < ip
  {
    var i := ScanPicksLastGreatest(rows, ip);
    if Scan(rows, ip).Some? { assert rows[i] in rows; }
  }

  // ----- the store -----

  class Table<V> {
    var entries: map<seq<byte>, V>
    ghost var rows: seq<Row<V>>

    ghost predicate Valid()
      reads this
    {
      entries == Stored(rows)
    }

    constructor ()
      ensures Valid() && rows == []
    {
      entries := map[];
      rows := [];
    }

    /** Clears the table and puts the rows up to the first malformed line, where it fails. */
    method Import(lines: seq<Line<V>>) returns (ok: bool)
      modifies this
      ensures Valid() && rows == Readable(lines) && AreRowsRead(lines, rows)
      ensures ok <==> forall l | l in lines :: l.Parsed?
    {
      entries := map[];
      rows := [];
      for i := 0 to |lines|
        invariant Valid() && |rows| == i
        invariant forall k | 0 <= k < i :: lines[k] == Parsed(rows[k])
      {
        if lines[i].Malformed? {
          assert lines[i] in lines;
          ReadableByPosition(lines, rows);
          return false;
        }
        var row := lines[i].row;
        entries := entries[BigEndian(row.ipFrom) := row.payload];
        ghost var before := rows;
        rows := rows + [row];
        assert rows[..|rows| - 1] == before;
        assert lines[i] == Parsed(row);
      }
      ReadableByPosition(lines, rows);
      return true;
    }

    /** The cursor: positions at the greatest key not above the target, if there is one. */
    method SeekForPrev(target: seq<byte>) returns (at: Option<seq<byte>>)
      ensures at.None? ==> forall k | k in entries :: BytesLess(target, k)
      ensures at.Some? ==> IsFloor(entries.Keys, target, at.value)
    {
      var rest := entries.Keys;
      at := None;
      while rest != {}
        invariant rest <= entries.Keys
        invariant at.None? ==> forall k | k in entries.Keys - rest :: BytesLess(target, k)
        invariant at.Some? ==> IsFloor(entries.Keys - rest, target, at.value)
      {
        var k :| k in rest;
        rest := rest - {k};
        BytesLessIrreflexive(k);
        if !BytesLess(target, k) {
          if at.None? || BytesLess(at.value, k) {
            if at.Some? { FloorMoves(entries.Keys - rest - {k}, target, at.value, k); }
            at := Some(k);
          }
        }
      }
    }

    /** The lookup of one address. */
    method Lookup(ip: u32) returns (value: Option<V>)
      requires Valid()
      ensures value == match Scan(rows, ip) case None => None case Some(row) => Some(row.payload)
    {
      var at := SeekForPrev(BigEndian(ip));
      value := if at.Some? then Some(entries[at.value]) else None;
      ScanIsFloor(rows, ip);
      if at.Some? && Scan(rows, ip).Some? {
        FloorUnique(entries.Keys, BigEndian(ip), at.value, BigEndian(Scan(rows, ip).value.ipFrom));
      }
    }
  }
}
