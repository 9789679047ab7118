/** The order of report rows (`Aggregates` of internal/inventory/aggregate.go, `rank` of summary.go). */
module Ranking {
  import opened Inventory

  // ---------------------------------------------------------------- strings

  /** Byte-wise lexicographic order. */
  predicate Less(a: string, b: string) {
    b != "" && (a == "" || a[0] < b[0] || (a[0] == b[0] && Less(a[1..], b[1..])))
  }

  lemma {:induction false} LessTotal(a: string, b: string)
    ensures a == b || Less(a, b) || Less(b, a)
  {
    if a != "" && b != "" && a[0] == b[0] {
      LessTotal(a[1..], b[1..]);
      assert a == [a[0]] + a[1..] && b == [b[0]] + b[1..];
    }
  }

  lemma {:induction false} LessAsymmetric(a: string, b: string)
    requires Less(a, b)
    ensures !Less(b, a) && a != b
  {
    if a != "" && a[0] == b[0] {
      LessAsymmetric(a[1..], b[1..]);
    }
  }

  lemma {:induction false} LessTransitive(a: string, b: string, c: string)
    requires Less(a, b) && Less(b, c)
    ensures Less(a, c)
  {
    if a != "" && a[0] == b[0] && b[0] == c[0] {
      LessTransitive(a[1..], b[1..], c[1..]);
    }
  }

  /** The first position where two strings differ decides, and a proper prefix comes first. */
  lemma {:induction false} LessMeans(a: string, b: string)
    ensures Less(a, b) <==> exists k: nat :: DiffersAt(a, b, k)
  {
    forall k: nat | k > 0 && DiffersAt(a, b, k)
      ensures a != "" && b != "" && a[0] == b[0]
    {
      assert a[..k][0] == a[0] && b[..k][0] == b[0];
    }
    if a != "" && b != "" && a[0] == b[0] {
      LessMeans(a[1..], b[1..]);
      if exists k: nat :: DiffersAt(a[1..], b[1..], k) {
        var k: nat :| DiffersAt(a[1..], b[1..], k);
        DiffersLater(a, b, k);
      }
      if exists k: nat :: DiffersAt(a, b, k) {
        var k: nat :| DiffersAt(a, b, k);
        assert k > 0;
        DiffersLater(a, b, k - 1);
      }
    } else {
      if Less(a, b) {
        assert DiffersAt(a, b, 0);
      }
      if exists k: nat :: DiffersAt(a, b, k) {
        var k: nat :| DiffersAt(a, b, k);
        assert k == 0;
      }
    }
  }

  /** `a` and `b` agree up to `k`, where `a` ends or has the smaller character. */
  predicate DiffersAt(a: string, b: string, k: nat) {
    k <= |a| && k < |b| && a[..k] == b[..k] && (k == |a| || a[k] < b[k])
  }

  lemma DiffersLater(a: string, b: string, k: nat)
    requires a != "" && b != "" && a[0] == b[0]
    ensures DiffersAt(a, b, k + 1) <==> DiffersAt(a[1..], b[1..], k)
  {
    if k < |a| && k + 1 < |b| {
      assert a[..k + 1] == [a[0]] + a[1..][..k] && b[..k + 1] == [b[0]] + b[1..][..k];
      assert a[..k + 1][1..] == a[1..][..k] && b[..k + 1][1..] == b[1..][..k];
    }
  }

  // ---------------------------------------------------------------- rows

  /** A row of the report: what it is about, and what has been gathered. */
  datatype Row = Row(key: Key, entry: Entry)

  /** Worst first, then most frequent, then by server name, then by cipher suite. */
  predicate Before(x: Row, y: Row) {
    var (rx, ry) := (Rank(x.entry.severity), Rank(y.entry.severity));
    if rx != ry then rx > ry
    else if x.entry.count != y.entry.count then x.entry.count > y.entry.count
    else if x.entry.first.serverName != y.entry.first.serverName then
      Less(x.entry.first.serverName, y.entry.first.serverName)
    else Less(x.entry.first.cipher, y.entry.first.cipher)
  }

  /** Neither comes before the other: the comparator has nothing to say about them. */
  predicate Tied(x: Row, y: Row) {
    && Rank(x.entry.severity) == Rank(y.entry.severity) && x.entry.count == y.entry.count
    && x.entry.first.serverName == y.entry.first.serverName && x.entry.first.cipher == y.entry.first.cipher
  }

  lemma BeforeOrTied(x: Row, y: Row)
    ensures Before(x, y) || Before(y, x) || Tied(x, y)
    ensures Before(x, y) ==> !Before(y, x) && !Tied(x, y)
  {
    hide Rank;
    LessTotal(x.entry.first.serverName, y.entry.first.serverName);
    LessTotal(x.entry.first.cipher, y.entry.first.cipher);
    if Before(x, y) {
      if Less(x.entry.first.serverName, y.entry.first.serverName) {
        LessAsymmetric(x.entry.first.serverName, y.entry.first.serverName);
      }
      if Less(x.entry.first.cipher, y.entry.first.cipher) {
        LessAsymmetric(x.entry.first.cipher, y.entry.first.cipher);
      }
    }
  }

  /** Tied rows are interchangeable to the comparator. */
  lemma TiedAlike(x: Row, y: Row, z: Row)
    requires Tied(x, y)
    ensures Before(x, z) == Before(y, z) && Before(z, x) == Before(z, y)
  {
  }

  lemma BeforeTransitive(x: Row, y: Row, z: Row)
    requires Before(x, y) && Before(y, z)
    ensures Before(x, z)
  {
    hide Rank, Less;
    var (nx, ny, nz) := (x.entry.first.serverName, y.entry.first.serverName, z.entry.first.serverName);
    var (cx, cy, cz) := (x.entry.first.cipher, y.entry.first.cipher, z.entry.first.cipher);
    if Less(nx, ny) && Less(ny, nz) {
      LessTransitive(nx, ny, nz);
      LessAsymmetric(nx, nz);
    }
    if Less(cx, cy) && Less(cy, cz) {
      LessTransitive(cx, cy, cz);
    }
  }

  /** What may stand in front of `y`, and `y` in front of `z`, may stand in front of `z`. */
  lemma MayPrecede(x: Row, y: Row, z: Row)
    requires !Before(y, x) && !Before(z, y)
    ensures !Before(z, x)
  {
    BeforeOrTied(x, y);
    BeforeOrTied(y, z);
    BeforeOrTied(x, z);
    if Before(x, y) && Before(y, z) {
      BeforeTransitive(x, y, z);
    } else if Tied(x, y) {
      TiedAlike(x, y, z);
    } else {
      TiedAlike(y, z, x);
    }
  }

  // ---------------------------------------------------------------- what sorting settles, and what it leaves open

  /** Any result of sorting: no row is before one that precedes it. */
  ghost predicate InOrder(rows: seq<Row>) {
    forall i, j :: 0 <= i < j < |rows| ==> !Before(rows[j], rows[i])
  }

  /** The outputs the sort may produce from these rows, whatever order the map was walked in. */
  ghost predicate Output(rows: seq<Row>, out: seq<Row>) {
    multiset(out) == multiset(rows) && InOrder(out)
  }

  ghost predicate NoTies(rows: seq<Row>) {
    forall i, j :: 0 <= i < j < |rows| ==> !Tied(rows[i], rows[j])
  }

  /**
   * How any output reads from top to bottom: no row is followed by a more severe one, none of its severity by a more
   * frequent one, then by a lesser server name, then by a lesser cipher suite.
   */
  lemma OutputReads(rows: seq<Row>, out: seq<Row>, i: nat, j: nat)
    requires Output(rows, out) && i < j < |out|
    ensures var x, y := out[i].entry, out[j].entry;
            && Rank(x.severity) >= Rank(y.severity)
            && (Rank(x.severity) == Rank(y.severity) ==> x.count >= y.count)
            && (Rank(x.severity) == Rank(y.severity) && x.count == y.count ==>
                  && (x.first.serverName == y.first.serverName || Less(x.first.serverName, y.first.serverName))
                  && (x.first.serverName == y.first.serverName ==>
                        x.first.cipher == y.first.cipher || Less(x.first.cipher, y.first.cipher)))
  {
    hide Rank, Less;
    assert !Before(out[j], out[i]);
    LessTotal(out[i].entry.first.serverName, out[j].entry.first.serverName);
    LessTotal(out[i].entry.first.cipher, out[j].entry.first.cipher);
  }

  lemma TailInOrder(rows: seq<Row>)
    requires InOrder(rows) && rows != []
    ensures InOrder(rows[1..])
  {
  }

  /** The first row of an output comes before, or is, every row of it. */
  lemma FirstComesFirst(a: seq<Row>, b: seq<Row>)
    requires InOrder(a) && multiset(a) == multiset(b) && a != [] && b != []
    ensures !Before(b[0], a[0])
  {
    assert b[0] in multiset(b);
    assert b[0] in multiset(a);
    var i :| 0 <= i < |a| && a[i] == b[0];
    if i == 0 {
      BeforeOrTied(a[0], b[0]);
    }
  }

  ghost predicate TiedOnlyToItself(rows: multiset<Row>) {
    forall x, y :: x in rows && y in rows && Tied(x, y) ==> x == y
  }

  lemma SameFirst(a: seq<Row>, b: seq<Row>)
    requires InOrder(a) && InOrder(b) && multiset(a) == multiset(b) && TiedOnlyToItself(multiset(a)) && a != []
             && b != []
    ensures a[0] == b[0]
  {
    FirstComesFirst(a, b);
    FirstComesFirst(b, a);
    BeforeOrTied(a[0], b[0]);
    hide Before, Tied;
    assert a[0] in multiset(a) && b[0] in multiset(b);
  }

  /** Without ties between different rows there is only one output. */
  lemma {:induction false} OutputUnique(a: seq<Row>, b: seq<Row>)
    requires InOrder(a) && InOrder(b) && multiset(a) == multiset(b) && TiedOnlyToItself(multiset(a))
    ensures a == b
    decreases |a|
  {
    hide Before, Tied, InOrder, TiedOnlyToItself;
    SameLength(a, b);
    if a != [] {
      SameFirst(a, b);
      TailInOrder(a);
      TailInOrder(b);
      TailMembers(a);
      TailMembers(b);
      OutputUnique(a[1..], b[1..]);
      assert a == [a[0]] + a[1..] && b == [b[0]] + b[1..];
    }
  }

  lemma SameLength(a: seq<Row>, b: seq<Row>)
    requires multiset(a) == multiset(b)
    ensures |a| == |b|
  {
    assert |a| == |multiset(a)| == |multiset(b)| == |b|;
  }

  lemma TailMembers(rows: seq<Row>)
    requires rows != []
    ensures multiset(rows[1..]) == multiset(rows) - multiset{rows[0]}
    ensures TiedOnlyToItself(multiset(rows)) ==> TiedOnlyToItself(multiset(rows[1..]))
  {
    hide Tied;
    assert rows == [rows[0]] + rows[1..];
  }

  /** Exchanging two tied rows of an output gives another output. */
  lemma ExchangeTied(out: seq<Row>, i: nat, j: nat)
    requires InOrder(out) && i < j < |out| && Tied(out[i], out[j])
    ensures InOrder(out[i := out[j]][j := out[i]]) && multiset(out[i := out[j]][j := out[i]]) == multiset(out)
  {
    hide Tied, Before;
    var other := out[i := out[j]][j := out[i]];
    forall p, q | 0 <= p < q < |other|
      ensures !Before(other[q], other[p])
    {
      ExchangeAlike(out, i, j, p);
      ExchangeAlike(out, i, j, q);
      SameComparison(out[p], other[p], out[q], other[q]);
      assert !Before(out[q], out[p]);
    }
  }

  /** After the exchange every position holds a row tied with the one it held. */
  lemma ExchangeAlike(out: seq<Row>, i: nat, j: nat, p: nat)
    requires i < j < |out| && Tied(out[i], out[j]) && p < |out|
    ensures Tied(out[p], out[i := out[j]][j := out[i]][p])
  {
  }

  lemma SameComparison(x: Row, x': Row, y: Row, y': Row)
    requires Tied(x, x') && Tied(y, y')
    ensures Before(y, x) == Before(y', x')
  {
    TiedAlike(x, x', y);
    TiedAlike(y, y', x');
  }

  /** The report is reproducible: one output only, whatever order the map was walked in. */
  ghost predicate Reproducible(rows: seq<Row>) {
    forall a, b :: Output(rows, a) && Output(rows, b) ==> a == b
  }

  lemma DistinctMembers(rows: seq<Row>, x: Row, y: Row)
    requires NoTies(rows) && x in rows && y in rows && Tied(x, y)
    ensures x == y
  {
    var i :| 0 <= i < |rows| && rows[i] == x;
    var j :| 0 <= j < |rows| && rows[j] == y;
    assert Tied(y, x);
    assert i == j;
  }

  lemma {:induction false} InsertRow(x: Row, rows: seq<Row>) returns (out: seq<Row>)
    requires InOrder(rows)
    ensures InOrder(out) && multiset(out) == multiset(rows) + multiset{x}
    ensures out[0] == x || (rows != [] && out[0] == rows[0])
  {
    if rows == [] || !Before(rows[0], x) {
      out := [x] + rows;
      FrontInOrder(x, rows);
    } else {
      TailInOrder(rows);
      var tail := InsertRow(x, rows[1..]);
      out := [rows[0]] + tail;
      assert rows == [rows[0]] + rows[1..];
      BeforeOrTied(rows[0], x);
      FrontInOrder(rows[0], tail);
    }
  }

  lemma FrontInOrder(x: Row, rows: seq<Row>)
    requires InOrder(rows) && (rows != [] ==> !Before(rows[0], x))
    ensures InOrder([x] + rows)
  {
    hide Before;
    forall j | 0 <= j < |rows|
      ensures !Before(rows[j], x)
    {
      if j > 0 {
        MayPrecede(x, rows[0], rows[j]);
      }
    }
  }

  /** The comparator is a strict weak order, so every list of rows can be sorted. */
  lemma {:induction false} OutputExists(rows: seq<Row>) returns (out: seq<Row>)
    ensures Output(rows, out)
  {
    if rows == [] {
      out := [];
    } else {
      var sorted := OutputExists(rows[1..]);
      out := InsertRow(rows[0], sorted);
      assert rows == [rows[0]] + rows[1..];
    }
  }

  /**
   * The comparator of `Aggregates` is meant to make runs diffable. It does so exactly when no two rows tie in severity
   * rank, count, server name and cipher suite.
   */
  lemma ReproducibleIffNoTies(rows: seq<Row>)
    requires forall i, j :: 0 <= i < j < |rows| ==> rows[i] != rows[j]
    ensures Reproducible(rows) <==> NoTies(rows)
  {
    if NoTies(rows) {
      forall x, y | x in multiset(rows) && y in multiset(rows) && Tied(x, y)
        ensures x == y
      {
        DistinctMembers(rows, x, y);
      }
      forall a, b | Output(rows, a) && Output(rows, b)
        ensures a == b
      {
        OutputUnique(a, b);
      }
    } else {
      var i, j :| 0 <= i < j < |rows| && Tied(rows[i], rows[j]);
      var out := OutputExists(rows);
      var p, q := Positions(rows, out, i, j);
      TieBreaksReport(rows, out, p, q);
    }
  }

  /** Two different rows of the input are at two different places of an output. */
  lemma Positions(rows: seq<Row>, out: seq<Row>, i: nat, j: nat) returns (p: nat, q: nat)
    requires Output(rows, out) && i < |rows| && j < |rows| && rows[i] != rows[j] && Tied(rows[i], rows[j])
    ensures p < q < |out| && out[p] != out[q] && Tied(out[p], out[q])
  {
    assert rows[i] in multiset(out) && rows[j] in multiset(out) by {
      assert rows[i] in multiset(rows) && rows[j] in multiset(rows);
    }
    var x :| 0 <= x < |out| && out[x] == rows[i];
    var y :| 0 <= y < |out| && out[y] == rows[j];
    p, q := if x < y then x else y, if x < y then y else x;
  }

  lemma TieBreaksReport(rows: seq<Row>, out: seq<Row>, p: nat, q: nat)
    requires Output(rows, out) && p < q < |out| && out[p] != out[q] && Tied(out[p], out[q])
    ensures !Reproducible(rows)
  {
    ExchangeTied(out, p, q);
    var other := out[p := out[q]][q := out[p]];
    assert Output(rows, other) && other[p] != out[p];
  }
}
