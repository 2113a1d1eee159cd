/** Choosing one chunk location per file slot from several competing rows. */
module Arbitration {
  import opened Basics

  /** A chunk location row, with what the arbiter looks up about its id. */
  datatype Row = Row(id: nat, replicas: nat, writeSeq: Option<nat>, writtenAt: Option<nat>, isFold: bool,
                     gen: Option<nat>)

  function OrZero(o: Option<nat>): nat { if o.Some? then o.value else 0 }

  predicate FoldThenWrittenAt(inc: Row, ext: Row) {
    if inc.isFold != ext.isFold then inc.isFold else OrZero(inc.writtenAt) >= OrZero(ext.writtenAt)
  }

  /** A client write below the durability floor may not displace a better-replicated row. */
  predicate Guarded(inc: Row, ext: Row, floor: nat) {
    !inc.isFold && inc.replicas < floor && inc.replicas < ext.replicas
  }

  /** The causal comparison: generation if both are known, then sequence, origin and clock. */
  predicate AtLeastAsNew(inc: Row, ext: Row) {
    if inc.gen.Some? && ext.gen.Some? && inc.gen != ext.gen then inc.gen.value > ext.gen.value
    else match (inc.writeSeq, ext.writeSeq)
      case (Some(i), Some(e)) => if i != e then i >= e else FoldThenWrittenAt(inc, ext)
      case (Some(_), None) => true
      case (None, Some(_)) => false
      case (None, None) => FoldThenWrittenAt(inc, ext)
  }

  predicate Supersedes(inc: Row, ext: Row, floor: nat) {
    !Guarded(inc, ext, floor) && AtLeastAsNew(inc, ext)
  }

  /** A row's standing: its write number, none counting lowest, then whether it is a fold, then its clock. */
  function Standing(r: Row): (nat, nat, nat) {
    (if r.writeSeq.Some? then r.writeSeq.value + 1 else 0, if r.isFold then 1 else 0,
     if r.writtenAt.Some? then r.writtenAt.value else 0)
  }

  predicate LexAtLeast(a: (nat, nat, nat), b: (nat, nat, nat)) {
    a.0 > b.0 || (a.0 == b.0 && (a.1 > b.1 || (a.1 == b.1 && a.2 >= b.2)))
  }

  /** Two different known generations decide; otherwise the comparison is lexicographic on the rows' standings. */
  lemma RecencyIsLexicographic(inc: Row, ext: Row)
    ensures AtLeastAsNew(inc, ext) <==>
              if inc.gen.Some? && ext.gen.Some? && inc.gen != ext.gen then inc.gen.value > ext.gen.value
              else LexAtLeast(Standing(inc), Standing(ext))
  {
  }

  // ---------------------------------------------------------------------------------------------
  // The scan: the first row of a slot is taken, later ones replace it if they supersede it

  function Winner(rows: seq<Row>, floor: nat): (w: Row)
    requires rows != []
    ensures w in rows
  {
    var n := |rows| - 1;
    if n == 0 then rows[0]
    else
      var c := Winner(rows[..n], floor);
      if Supersedes(rows[n], c, floor) then rows[n] else c
  }

  /** The scan looks up no generations. */
  function Blind(r: Row): Row { r.(gen := None) }

  function RowsOf(table: seq<(nat, Row)>, slot: nat): seq<Row> {
    if table == [] then []
    else
      var n := |table| - 1;
      RowsOf(table[..n], slot) + (if table[n].0 == slot then [Blind(table[n].1)] else [])
  }

  lemma {:induction false} RowsOfBlind(table: seq<(nat, Row)>, slot: nat)
    ensures NoGenerations(RowsOf(table, slot))
  {
    if table != [] { RowsOfBlind(table[..|table| - 1], slot); }
  }

  lemma RowsOfNext(table: seq<(nat, Row)>, i: nat)
    requires i < |table|
    ensures RowsOf(table[..i + 1], table[i].0) == RowsOf(table[..i], table[i].0) + [Blind(table[i].1)]
    ensures forall slot | slot != table[i].0 :: RowsOf(table[..i + 1], slot) == RowsOf(table[..i], slot)
  {
    assert table[..i + 1][..i] == table[..i];
  }

  lemma NoRows(table: seq<(nat, Row)>)
    ensures forall slot :: RowsOf(table[..0], slot) == []
  {
  }

  lemma WinnerSnoc(rows: seq<Row>, r: Row, floor: nat)
    ensures Winner(rows + [r], floor) ==
      if rows == [] || Supersedes(r, Winner(rows, floor), floor) then r else Winner(rows, floor)
  {
    assert (rows + [r])[..|rows|] == rows;
  }

  method ChunkLocationsForInfo(table: seq<(nat, Row)>, floor: nat) returns (byIdx: map<nat, Row>)
    ensures forall slot :: slot in byIdx <==> RowsOf(table, slot) != []
    ensures forall slot | slot in byIdx :: byIdx[slot] == Winner(RowsOf(table, slot), floor) && byIdx[slot].gen.None?
  {
    hide RowsOf, Winner;
    byIdx := map[];
    var i := 0;
    NoRows(table);
    while i < |table|
      invariant 0 <= i <= |table|
      invariant forall slot :: slot in byIdx <==> RowsOf(table[..i], slot) != []
      invariant forall slot | slot in byIdx :: byIdx[slot] == Winner(RowsOf(table[..i], slot), floor)
      invariant forall slot | slot in byIdx :: byIdx[slot].gen.None?
    {
      var (slot, row) := (table[i].0, Blind(table[i].1));
      ghost var before := RowsOf(table[..i], slot);
      RowsOfNext(table, i);
      WinnerSnoc(before, row, floor);
      if slot in byIdx {
        if Supersedes(row, byIdx[slot], floor) {
          byIdx := byIdx[slot := row];
        }
      } else {
        byIdx := byIdx[slot := row];
      }
      i := i + 1;
    }
    assert table[..i] == table;
  }

  // ---------------------------------------------------------------------------------------------
  // When the order of the scan matters

  /** Every order of the same rows yields the same winner. */
  ghost predicate OrderIrrelevant(rows: seq<Row>, floor: nat)
    requires rows != []
  {
    forall p: seq<Row> | p != [] && multiset(p) == multiset(rows) :: Winner(p, floor) == Winner(rows, floor)
  }

  predicate Beats(w: Row, r: Row, floor: nat) { Supersedes(w, r, floor) && !Supersedes(r, w, floor) }

  ghost predicate BeatsAll(w: Row, rows: seq<Row>, floor: nat) {
    w in rows && forall r | r in rows && r != w :: Beats(w, r, floor)
  }

  lemma {:induction false} BeaterWins(w: Row, rows: seq<Row>, floor: nat)
    requires rows != [] && Distinct(rows) && BeatsAll(w, rows, floor)
    ensures Winner(rows, floor) == w
  {
    var n := |rows| - 1;
    if n > 0 {
      assert rows == rows[..n] + [rows[n]];
      if w == rows[n] {
        var c := Winner(rows[..n], floor);
        assert c in rows[..n] && c != w;
      } else {
        BeaterWins(w, rows[..n], floor);
      }
    }
  }

  lemma {:induction false} WinnerOfPrefix(a: seq<Row>, b: seq<Row>, floor: nat)
    requires a != []
    ensures Winner(a + b, floor) == Winner(a, floor) || Winner(a + b, floor) in b
  {
    if b == [] {
      assert a + b == a;
    } else {
      var n := |b| - 1;
      WinnerOfPrefix(a, b[..n], floor);
      assert (a + b)[..|a + b| - 1] == a + b[..n];
    }
  }

  lemma DropAt(rows: seq<Row>, i: nat)
    requires Distinct(rows) && i < |rows|
    ensures Distinct(rows[..i] + rows[i + 1..])
    ensures rows[i] !in rows[..i] + rows[i + 1..]
  {
    var rest := rows[..i] + rows[i + 1..];
    forall k | 0 <= k < |rest| ensures rest[k] == rows[if k < i then k else k + 1] {}
  }

  lemma DropMultiset(rows: seq<Row>, i: nat)
    requires i < |rows|
    ensures multiset(rows[..i] + rows[i + 1..]) + multiset{rows[i]} == multiset(rows)
  {
    assert rows == rows[..i] + [rows[i]] + rows[i + 1..];
  }

  lemma Without(rows: seq<Row>, x: Row) returns (rest: seq<Row>)
    requires Distinct(rows) && x in rows
    ensures multiset(rest) + multiset{x} == multiset(rows)
    ensures Distinct(rest) && x !in rest
  {
    var i :| 0 <= i < |rows| && rows[i] == x;
    DropAt(rows, i);
    DropMultiset(rows, i);
    rest := rows[..i] + rows[i + 1..];
  }

  /** Splits two different rows off the front of some arrangement of the rest. */
  lemma BringForward(rows: seq<Row>, w: Row, r: Row) returns (rest: seq<Row>)
    requires Distinct(rows) && w in rows && r in rows && w != r
    ensures multiset([w, r] + rest) == multiset(rows) && multiset([r, w] + rest) == multiset(rows)
    ensures w !in rest && r !in rest
  {
    var some := Without(rows, w);
    assert r in multiset(rows);
    assert r in multiset(some) && w !in multiset(some);
    rest := Without(some, r);
    assert w !in multiset(rest);
    assert multiset([w, r]) == multiset{w} + multiset{r};
    assert multiset([r, w]) == multiset{w} + multiset{r};
  }

  lemma IrrelevantMeansBeats(rows: seq<Row>, r: Row, floor: nat)
    requires rows != [] && Distinct(rows) && OrderIrrelevant(rows, floor)
    requires r in rows && r != Winner(rows, floor)
    ensures Beats(Winner(rows, floor), r, floor)
  {
    hide Winner, Beats;
    var w := Winner(rows, floor);
    var rest := BringForward(rows, w, r);
    assert Winner([w, r] + rest, floor) == w && Winner([r, w] + rest, floor) == w;
    FirstTwoDecide(w, r, rest, floor);
  }

  lemma FirstTwoDecide(w: Row, r: Row, rest: seq<Row>, floor: nat)
    requires w != r && w !in rest && Winner([w, r] + rest, floor) == w && Winner([r, w] + rest, floor) == w
    ensures Beats(w, r, floor)
  {
    hide Supersedes;
    WinnerOfPrefix([w, r], rest, floor);
    WinnerOfPrefix([r, w], rest, floor);
    assert [w, r][..1] == [w] && [r, w][..1] == [r];
  }

  lemma PermutationKeeps(p: seq<Row>, rows: seq<Row>)
    requires multiset(p) == multiset(rows) && Distinct(rows)
    ensures Distinct(p) && forall x :: x in p <==> x in rows
  {
    forall x ensures x in p <==> x in rows { assert x in multiset(p) <==> x in multiset(rows); }
    forall i, j | 0 <= i < j < |p| ensures p[i] != p[j] {
      if p[i] == p[j] {
        TwiceCounts(p, i, j);
        OnceCounts(rows, p[i]);
      }
    }
  }

  lemma TwiceCounts(p: seq<Row>, i: nat, j: nat)
    requires i < j < |p| && p[i] == p[j]
    ensures multiset(p)[p[i]] >= 2
  {
    assert p == p[..i] + [p[i]] + p[i + 1..j] + [p[j]] + p[j + 1..];
  }

  lemma {:induction false} OnceCounts(rows: seq<Row>, x: Row)
    requires Distinct(rows)
    ensures multiset(rows)[x] <= 1
  {
    if rows != [] {
      var n := |rows| - 1;
      assert rows == rows[..n] + [rows[n]];
      OnceCounts(rows[..n], x);
      if x == rows[n] { assert x !in rows[..n]; }
    }
  }

  /** Scan order is irrelevant exactly when one row beats every other one on its own. */
  lemma OrderIrrelevantIff(rows: seq<Row>, floor: nat)
    requires rows != [] && Distinct(rows)
    ensures OrderIrrelevant(rows, floor) <==> exists w :: BeatsAll(w, rows, floor)
  {
    if OrderIrrelevant(rows, floor) {
      var w := Winner(rows, floor);
      forall r | r in rows && r != w ensures Beats(w, r, floor) { IrrelevantMeansBeats(rows, r, floor); }
      assert BeatsAll(w, rows, floor);
    }
    if w :| BeatsAll(w, rows, floor) {
      BeaterWins(w, rows, floor);
      forall p: seq<Row> | p != [] && multiset(p) == multiset(rows) ensures Winner(p, floor) == w {
        PermutationKeeps(p, rows);
        BeaterWins(w, p, floor);
      }
    }
  }

  // ---------------------------------------------------------------------------------------------
  // The scan passes no generations. Then recency is a total preorder, and only the guard can spoil it

  ghost predicate NoGenerations(rows: seq<Row>) { forall r | r in rows :: r.gen.None? }

  lemma RecencyTotal(a: Row, b: Row)
    requires a.gen.None? && b.gen.None?
    ensures AtLeastAsNew(a, b) || AtLeastAsNew(b, a)
  {
  }

  lemma RecencyTransitive(a: Row, b: Row, c: Row)
    requires a.gen.None? && b.gen.None? && c.gen.None?
    requires AtLeastAsNew(a, b) && AtLeastAsNew(b, c)
    ensures AtLeastAsNew(a, c)
  {
  }

  /** No two rows tie. */
  ghost predicate Strict(rows: seq<Row>) {
    forall a, b | a in rows && b in rows && a != b :: !(AtLeastAsNew(a, b) && AtLeastAsNew(b, a))
  }

  ghost predicate Newest(m: Row, rows: seq<Row>) {
    m in rows && forall r | r in rows :: r == m || AtLeastAsNew(m, r)
  }

  lemma {:induction false} NewestExists(rows: seq<Row>) returns (m: Row)
    requires rows != [] && NoGenerations(rows)
    ensures Newest(m, rows)
  {
    var n := |rows| - 1;
    assert rows == rows[..n] + [rows[n]];
    if n == 0 {
      m := rows[0];
    } else {
      var k := NewestExists(rows[..n]);
      RecencyTotal(k, rows[n]);
      if AtLeastAsNew(k, rows[n]) {
        m := k;
      } else {
        m := rows[n];
        forall r | r in rows[..n] && r != k ensures AtLeastAsNew(m, r) { RecencyTransitive(m, k, r); }
      }
    }
  }

  /** The row is what the slot resolves to, whatever order its rows come in. */
  ghost predicate AlwaysWins(m: Row, rows: seq<Row>, floor: nat) {
    forall p: seq<Row> | p != [] && multiset(p) == multiset(rows) :: Winner(p, floor) == m
  }

  predicate Replicated(m: Row, rows: seq<Row>, floor: nat) {
    m.isFold || m.replicas >= floor || forall r | r in rows :: r.replicas <= m.replicas
  }

  /**
   * "Newest wins" holds for every scan order exactly when the newest row is a fold, has reached the
   * durability floor, or is at least as well replicated as every other row of the slot.
   */
  lemma NewestWinsIff(rows: seq<Row>, m: Row, floor: nat)
    requires rows != [] && Distinct(rows) && NoGenerations(rows) && Strict(rows) && Newest(m, rows)
    ensures AlwaysWins(m, rows, floor) <==> Replicated(m, rows, floor)
  {
    if Replicated(m, rows, floor) {
      assert BeatsAll(m, rows, floor);
      forall p: seq<Row> | p != [] && multiset(p) == multiset(rows) ensures Winner(p, floor) == m {
        PermutationKeeps(p, rows);
        BeaterWins(m, p, floor);
      }
    } else if AlwaysWins(m, rows, floor) {
      assert Winner(rows, floor) == m;
      assert OrderIrrelevant(rows, floor);
      var r :| r in rows && r.replicas > m.replicas;
      IrrelevantMeansBeats(rows, r, floor);
      assert Guarded(m, r, floor);
    }
  }

  /** A one-replica phantom beats a healthy older row if the scan happens to meet it first. */
  lemma PhantomWinsByOrder()
    ensures var healthy, phantom := Row(1, 3, Some(10), None, false, None), Row(2, 1, Some(11), None, false, None);
      Winner([healthy, phantom], 2) == healthy && Winner([phantom, healthy], 2) == phantom
  {
    var healthy, phantom := Row(1, 3, Some(10), None, false, None), Row(2, 1, Some(11), None, false, None);
    assert [healthy, phantom][..1] == [healthy] && [phantom, healthy][..1] == [phantom];
  }

  /** When only some generations are known the comparison can run in a circle. */
  lemma UnknownGenerationCycle()
    ensures exists a, b, c, floor :: Beats(a, b, floor) && Beats(b, c, floor) && Beats(c, a, floor)
  {
    var a := Row(1, 2, Some(5), None, false, Some(1));
    var b := Row(2, 2, Some(3), None, false, None);
    var c := Row(3, 2, Some(1), None, false, Some(2));
    assert Beats(a, b, 2) && Beats(b, c, 2) && Beats(c, a, 2);
  }
}
