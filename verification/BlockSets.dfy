/** The blocks of a persistent array that an index expression touches. */
module BlockSets {
  import opened Arith
  import opened Collections
  import opened Slices
  import opened Views

  type Coord = seq<int>

  // -------------------------------------------------------- products of axes

  function Axis(sel: Sel): seq<int> {
    if sel.One? then [sel.p] else sel.ps
  }

  function Spread(ps: seq<int>, rest: seq<Coord>): (cs: seq<Coord>)
    ensures |cs| == |ps| * |rest|
  {
    if ps == [] then []
    else
      MulDist(1, |ps| - 1, |rest|);
      seq(|rest|, i requires 0 <= i < |rest| => [ps[0]] + rest[i]) + Spread(ps[1..], rest)
  }

  /** The cells a selection names, in row-major order. */
  function Cells(sels: seq<Sel>): seq<Coord> {
    if sels == [] then [[]] else Spread(Axis(sels[0]), Cells(sels[1..]))
  }

  lemma {:induction false} SpreadHas(ps: seq<int>, rest: seq<Coord>, c: Coord)
    ensures c in Spread(ps, rest) <==> |c| > 0 && c[0] in ps && c[1..] in rest
  {
    if ps == [] {
    } else {
      SpreadHas(ps[1..], rest, c);
      var row := seq(|rest|, i requires 0 <= i < |rest| => [ps[0]] + rest[i]);
      assert Spread(ps, rest) == row + Spread(ps[1..], rest);
      if |c| > 0 && c[0] == ps[0] && c[1..] in rest {
        var i :| 0 <= i < |rest| && rest[i] == c[1..];
        assert row[i] == c;
      }
      if c in row {
        var i :| 0 <= i < |row| && row[i] == c;
        assert c[1..] == rest[i];
      }
    }
  }

  ghost predicate InSels(sels: seq<Sel>, c: Coord) {
    |c| == |sels| && forall i :: 0 <= i < |c| ==> c[i] in Axis(sels[i])
  }

  lemma {:induction false} CellsHas(sels: seq<Sel>, c: Coord)
    ensures c in Cells(sels) <==> InSels(sels, c)
  {
    if sels == [] {
    } else {
      SpreadHas(Axis(sels[0]), Cells(sels[1..]), c);
      if |c| > 0 {
        CellsHas(sels[1..], c[1..]);
        if InSels(sels[1..], c[1..]) && c[0] in Axis(sels[0]) {
          forall i | 0 <= i < |c| ensures c[i] in Axis(sels[i]) {
            if i > 0 { assert c[1..][i - 1] in Axis(sels[1..][i - 1]); }
          }
        }
      }
    }
  }

  // --------------------------------------------------------- row-major order

  /** `a` comes before `b` where the last index runs fastest. */
  ghost predicate Below(a: Coord, b: Coord) {
    a != [] && b != [] && (a[0] < b[0] || (a[0] == b[0] && Below(a[1..], b[1..])))
  }

  ghost predicate RowMajor(cs: seq<Coord>) {
    forall i, j :: 0 <= i < j < |cs| ==> Below(cs[i], cs[j])
  }

  ghost predicate Ascending(ps: seq<int>) {
    forall i, j :: 0 <= i < j < |ps| ==> ps[i] < ps[j]
  }

  lemma {:induction false} NotBelowItself(c: Coord)
    ensures !Below(c, c)
  {
    if c == [] {
    } else {
      NotBelowItself(c[1..]);
    }
  }

  lemma RowMajorDistinct(cs: seq<Coord>)
    requires RowMajor(cs)
    ensures Distinct(cs)
  {
    forall i, j | 0 <= i < j < |cs| ensures cs[i] != cs[j] { NotBelowItself(cs[i]); }
  }

  lemma {:induction false} SpreadRowMajor(ps: seq<int>, rest: seq<Coord>)
    requires Ascending(ps) && RowMajor(rest)
    ensures RowMajor(Spread(ps, rest))
  {
    if ps == [] {
    } else {
      SpreadRowMajor(ps[1..], rest);
      var row, more := seq(|rest|, i requires 0 <= i < |rest| => [ps[0]] + rest[i]), Spread(ps[1..], rest);
      var all := Spread(ps, rest);
      assert all == row + more;
      forall i, j | 0 <= i < j < |all| ensures Below(all[i], all[j]) {
        if j < |row| {
          assert all[i][1..] == rest[i] && all[j][1..] == rest[j];
        } else if i < |row| {
          assert all[j] == more[j - |row|] && all[j] in more;
          SpreadHas(ps[1..], rest, all[j]);
        } else {
          assert all[i] == more[i - |row|] && all[j] == more[j - |row|];
        }
      }
    }
  }

  /** The cells of ascending axes come in row-major order. */
  lemma {:induction false} CellsRowMajor(sels: seq<Sel>)
    requires forall i :: 0 <= i < |sels| ==> Ascending(Axis(sels[i]))
    ensures RowMajor(Cells(sels))
  {
    if sels == [] {
    } else {
      CellsRowMajor(sels[1..]);
      SpreadRowMajor(Axis(sels[0]), Cells(sels[1..]));
    }
  }

  // ----------------------------------------------------------------- blocks

  /** How many blocks an inclusive range holds. */
  function SpanLen(r: (int, int)): nat {
    if r.0 <= r.1 then r.1 - r.0 + 1 else 0
  }

  function Interval(r: (int, int)): (ps: seq<int>)
    ensures |ps| == SpanLen(r) && forall i :: 0 <= i < |ps| ==> ps[i] == r.0 + i
  {
    seq(SpanLen(r), i => r.0 + i)
  }

  lemma IntervalHas(r: (int, int), p: int)
    ensures p in Interval(r) <==> r.0 <= p <= r.1
  {
    if r.0 <= p <= r.1 { assert Interval(r)[p - r.0] == p; }
  }

  /** itertools.product of the ranges. */
  function Product(rs: seq<(int, int)>): (cs: seq<Coord>) {
    Cells(seq(|rs|, i requires 0 <= i < |rs| => Many(Interval(rs[i]))))
  }

  ghost predicate Within(rs: seq<(int, int)>, c: Coord) {
    |c| == |rs| && forall i :: 0 <= i < |c| ==> rs[i].0 <= c[i] <= rs[i].1
  }

  lemma ProductHas(rs: seq<(int, int)>, c: Coord)
    ensures c in Product(rs) <==> Within(rs, c)
  {
    var sels := seq(|rs|, i requires 0 <= i < |rs| => Many(Interval(rs[i])));
    CellsHas(sels, c);
    if |c| == |rs| {
      forall i | 0 <= i < |c| ensures c[i] in Axis(sels[i]) <==> rs[i].0 <= c[i] <= rs[i].1 {
        IntervalHas(rs[i], c[i]);
      }
    }
  }

  /** Product of the range lengths. */
  function SpanProduct(rs: seq<(int, int)>): nat {
    if rs == [] then 1 else SpanLen(rs[0]) * SpanProduct(rs[1..])
  }

  lemma DistinctConcat<T>(a: seq<T>, b: seq<T>)
    requires Distinct(a) && Distinct(b) && forall x :: x in a ==> x !in b
    ensures Distinct(a + b)
  {
    forall i, j | 0 <= i < j < |a + b| ensures (a + b)[i] != (a + b)[j] {
      if i < |a| <= j { assert a[i] in a && b[j - |a|] in b; }
    }
  }

  lemma {:induction false} SpreadDistinct(ps: seq<int>, rest: seq<Coord>)
    requires Distinct(ps) && Distinct(rest)
    ensures Distinct(Spread(ps, rest))
  {
    if ps == [] {
    } else {
      SpreadDistinct(ps[1..], rest);
      var row := seq(|rest|, i requires 0 <= i < |rest| => [ps[0]] + rest[i]);
      assert Spread(ps, rest) == row + Spread(ps[1..], rest);
      forall i, j | 0 <= i < j < |row| ensures row[i] != row[j] {
        assert row[i][1..] == rest[i] && row[j][1..] == rest[j];
      }
      forall x | x in row ensures x !in Spread(ps[1..], rest) {
        SpreadHas(ps[1..], rest, x);
      }
      DistinctConcat(row, Spread(ps[1..], rest));
    }
  }

  function AxisProduct(sels: seq<Sel>): nat {
    if sels == [] then 1 else |Axis(sels[0])| * AxisProduct(sels[1..])
  }

  lemma {:induction false} CellsCount(sels: seq<Sel>)
    ensures |Cells(sels)| == AxisProduct(sels)
  {
    if sels == [] {
    } else {
      CellsCount(sels[1..]);
    }
  }

  lemma {:induction false} CellsDistinct(sels: seq<Sel>)
    requires forall i :: 0 <= i < |sels| ==> Distinct(Axis(sels[i]))
    ensures Distinct(Cells(sels))
  {
    if sels == [] {
    } else {
      CellsDistinct(sels[1..]);
      SpreadDistinct(Axis(sels[0]), Cells(sels[1..]));
    }
  }

  lemma {:induction false} DistinctCount<T>(s: seq<T>)
    requires Distinct(s)
    ensures |set x | x in s| == |s|
  {
    if s == [] {
    } else {
      DistinctCount(s[1..]);
      assert (set x | x in s) == {s[0]} + set x | x in s[1..];
    }
  }

  lemma {:induction false} SpanAxes(rs: seq<(int, int)>)
    ensures AxisProduct(seq(|rs|, i requires 0 <= i < |rs| => Many(Interval(rs[i])))) == SpanProduct(rs)
  {
    if rs == [] {
    } else {
      SpanAxes(rs[1..]);
      var sels := seq(|rs|, i requires 0 <= i < |rs| => Many(Interval(rs[i])));
      assert sels[1..] == seq(|rs[1..]|, i requires 0 <= i < |rs[1..]| => Many(Interval(rs[1..][i])));
    }
  }

  /** There are as many coordinates within some ranges as the product of the
      lengths of the ranges. */
  lemma WithinCount(rs: seq<(int, int)>, s: set<Coord>)
    requires forall c :: c in s <==> Within(rs, c)
    ensures |s| == SpanProduct(rs)
  {
    var sels := seq(|rs|, i requires 0 <= i < |rs| => Many(Interval(rs[i])));
    CellsCount(sels);
    CellsDistinct(sels);
    SpanAxes(rs);
    DistinctCount(Product(rs));
    forall c ensures c in s <==> c in Product(rs) { ProductHas(rs, c); }
    assert s == set c | c in Product(rs);
  }

  // ------------------------------------------------------------------- cells

  ghost predicate IsCell(shape: seq<nat>, c: Coord) {
    |c| == |shape| && forall i :: 0 <= i < |c| ==> 0 <= c[i] < shape[i]
  }

  function BlockOf(c: Coord, size: int): (b: Coord)
    requires size >= 1
    ensures |b| == |c| && forall i :: 0 <= i < |c| ==> b[i] == c[i] / size
  {
    seq(|c|, i requires 0 <= i < |c| => c[i] / size)
  }

  /** The block ranges of the whole array. */
  function WholeSpans(shape: seq<nat>, size: int): (rs: seq<(int, int)>)
    requires size >= 1
    ensures |rs| == |shape| && forall i :: 0 <= i < |rs| ==> rs[i] == (0, (shape[i] - 1) / size)
  {
    seq(|shape|, i requires 0 <= i < |shape| => (0, (shape[i] - 1) / size))
  }

  lemma CellBlock(shape: seq<nat>, size: int, c: Coord)
    requires size >= 1 && IsCell(shape, c)
    ensures Within(WholeSpans(shape, size), BlockOf(c, size))
  {
    forall i | 0 <= i < |c| ensures 0 <= c[i] / size <= (shape[i] - 1) / size {
      DivMono(0, c[i], size);
      DivMono(c[i], shape[i] - 1, size);
    }
  }

  /** The block ranges of a view hold the block of every selected cell, and hold
      only blocks of the array. */
  lemma RangesCover(shape: seq<nat>, size: int, view: seq<Index>, rs: seq<(int, int)>)
    requires size >= 1 && ViewOf(shape, view) && |rs| == |view|
    requires forall i :: 0 <= i < |view| ==> BlockSpan(shape[i], size, view[i]) == Done(rs[i])
    ensures forall c :: c in Cells(DenoteAll(shape, view)) ==> IsCell(shape, c) && BlockOf(c, size) in Product(rs)
    ensures forall b :: b in Product(rs) ==> Within(WholeSpans(shape, size), b)
  {
    forall c: Coord | c in Cells(DenoteAll(shape, view)) ensures IsCell(shape, c) && BlockOf(c, size) in Product(rs) {
      CellsHas(DenoteAll(shape, view), c);
      forall i: int | 0 <= i < |c| ensures 0 <= c[i] < shape[i] && rs[i].0 <= c[i] / size <= rs[i].1 {
        SpanCovers(shape[i], size, view[i], c[i]);
      }
      ProductHas(rs, BlockOf(c, size));
    }
    forall b | b in Product(rs) ensures Within(WholeSpans(shape, size), b) {
      ProductHas(rs, b);
      forall i | 0 <= i < |b| ensures 0 <= b[i] <= (shape[i] - 1) / size {
        SpanInside(shape[i], size, view[i]);
      }
    }
  }

  lemma SpanInside(n: nat, size: int, ix: Index)
    requires size >= 1 && Entry(n, ix)
    ensures BlockSpan(n, size, ix).Done?
    ensures 0 <= BlockSpan(n, size, ix).value.0 && BlockSpan(n, size, ix).value.1 <= (n - 1) / size
  {
    if ix.At? {
      DivMono(0, ix.i, size);
      DivMono(ix.i, n - 1, size);
    } else {
      EntryPositions(n, ix);
      DivMono(0, RemoveNones(ix, n).start, size);
      DivMono(RemoveNones(ix, n).stop - 1, n - 1, size);
    }
  }

  // ------------------------------------------------------------- whole arrays

  ghost predicate Proper(shape: seq<nat>, size: int) {
    size >= 1 && shape != [] && forall i :: 0 <= i < |shape| ==> shape[i] >= 1
  }

  /** The axes of the whole array. */
  function WholeAxes(shape: seq<nat>): seq<Sel> {
    seq(|shape|, i requires 0 <= i < |shape| => Denote(shape[i], Slice(None, None, None)))
  }

  /** The set is exactly the set of blocks of the array. */
  ghost predicate Everything(shape: seq<nat>, size: int, loaded: set<Coord>)
    requires size >= 1
  {
    forall b :: b in loaded <==> Within(WholeSpans(shape, size), b)
  }

  /** The cells that numpy selects from the whole array. */
  ghost function Selected(shape: seq<nat>, idx: seq<Index>): seq<Coord>
    requires Indexable(WholeAxes(shape), idx)
  {
    Cells(NpIndex(WholeAxes(shape), idx))
  }

  ghost predicate Touched(shape: seq<nat>, size: int, cells: seq<Coord>, blocks: seq<Coord>)
    requires size >= 1
  {
    forall c :: c in cells ==> IsCell(shape, c) && BlockOf(c, size) in blocks
  }

  ghost predicate BlocksOf(shape: seq<nat>, size: int, bs: seq<Coord>)
    requires size >= 1
  {
    forall b :: b in bs ==> Within(WholeSpans(shape, size), b)
  }

  lemma FullSpans(shape: seq<nat>, size: int)
    requires size >= 1 && forall i :: 0 <= i < |shape| ==> shape[i] >= 1
    ensures BlockSpans(shape, size, FullView(|shape|)) == Done(WholeSpans(shape, size))
  {
    forall i | 0 <= i < |shape|
      ensures BlockSpan(shape[i], size, FullView(|shape|)[i]) == Done(WholeSpans(shape, size)[i])
    {}
    assert BlockSpans(shape, size, FullView(|shape|)).value == WholeSpans(shape, size);
  }

  /** numpy selects cells of the array only. */
  lemma SelectedCells(shape: seq<nat>, idx: seq<Index>)
    requires Indexable(WholeAxes(shape), idx)
    ensures forall c :: c in Selected(shape, idx) ==> IsCell(shape, c)
  {
    var sels := WholeAxes(shape);
    WholeInside(shape);
    NpInside(shape, sels, idx);
    forall c: Coord | c in Selected(shape, idx) ensures IsCell(shape, c) {
      InsideCell(shape, NpIndex(sels, idx), c);
    }
  }

  lemma InsideCell(shape: seq<nat>, sels: seq<Sel>, c: Coord)
    requires Inside(shape, sels) && c in Cells(sels)
    ensures IsCell(shape, c)
  {
    CellsHas(sels, c);
    forall i | 0 <= i < |c| ensures 0 <= c[i] < shape[i] {
      assert AxisInside(shape[i], sels[i]) && Selects(sels[i], c[i]);
    }
  }

  lemma WholeInside(shape: seq<nat>)
    ensures Inside(shape, WholeAxes(shape))
  {
    var sels := WholeAxes(shape);
    forall i | 0 <= i < |shape| ensures AxisInside(shape[i], sels[i]) {
      forall p | Selects(sels[i], p) ensures 0 <= p < shape[i] {
        var k :| 0 <= k < |sels[i].ps| && sels[i].ps[k] == p;
        PositionsInRange(shape[i], Slice(None, None, None), k);
      }
    }
  }

  ghost predicate AxisInside(n: nat, sel: Sel) {
    forall p :: Selects(sel, p) ==> 0 <= p < n
  }

  /** Every axis selects positions of its dimension. */
  ghost predicate Inside(shape: seq<nat>, sels: seq<Sel>) {
    |sels| == |shape| && forall i :: 0 <= i < |shape| ==> AxisInside(shape[i], sels[i])
  }

  lemma {:induction false} NpInside(shape: seq<nat>, sels: seq<Sel>, idx: seq<Index>)
    requires Inside(shape, sels) && Indexable(sels, idx)
    ensures Inside(shape, NpIndex(sels, idx))
    decreases |sels|
  {
    if sels == [] {
    } else {
      InsideTail(shape, sels);
      var out := NpIndex(sels, idx);
      if sels[0].One? {
        NpInside(shape[1..], sels[1..], idx);
      } else if idx == [] {
        NpInside(shape[1..], sels[1..], []);
      } else {
        NpInside(shape[1..], sels[1..], idx[1..]);
        assert sels[0] == Many(sels[0].ps);
        PickInside(shape[0], sels[0].ps, idx[0]);
      }
      forall i | 0 <= i < |shape| ensures AxisInside(shape[i], out[i]) {
        if i > 0 { assert AxisInside(shape[1..][i - 1], out[1..][i - 1]); }
      }
    }
  }

  lemma InsideTail(shape: seq<nat>, sels: seq<Sel>)
    requires Inside(shape, sels) && sels != []
    ensures Inside(shape[1..], sels[1..]) && AxisInside(shape[0], sels[0])
  {
    forall i | 0 <= i < |shape[1..]| ensures AxisInside(shape[1..][i], sels[1..][i]) {
      assert AxisInside(shape[i + 1], sels[i + 1]);
    }
  }

  lemma PickInside(n: nat, ps: seq<int>, ix: Index)
    requires Accepted(|ps|, ix) && AxisInside(n, Many(ps))
    ensures AxisInside(n, Pick(ps, ix))
  {
    if ix.At? {
      assert Selects(Many(ps), ps[Norm(|ps|, ix.i)]);
    } else {
      forall p | Selects(Pick(ps, ix), p) ensures 0 <= p < n {
        var q := Positions(|ps|, ix);
        var k :| 0 <= k < |q| && Pick(ps, ix).ps[k] == p;
        PositionsInRange(|ps|, ix, k);
        assert Selects(Many(ps), ps[q[k]]);
      }
    }
  }

  lemma ElemsAscending(a: int, b: int, s: int)
    requires s >= 1
    ensures Ascending(Elems(a, b, s))
  {
    var ps := Elems(a, b, s);
    forall i, j | 0 <= i < j < |ps| ensures ps[i] < ps[j] { MulLe(i + 1, j, s); MulDist(i, 1, s); }
  }

  lemma PickAscending(ps: seq<int>, ix: Index)
    requires Ascending(ps) && Accepted(|ps|, ix)
    ensures Ascending(Axis(Pick(ps, ix)))
  {
    if ix.Slice? {
      var q := Positions(|ps|, ix);
      ElemsAscending(Lo(|ps|, ix), Hi(|ps|, ix), Step(ix));
      forall k | 0 <= k < |q| ensures 0 <= q[k] < |ps| { PositionsInRange(|ps|, ix, k); }
    }
  }

  lemma {:induction false} NpAscending(sels: seq<Sel>, idx: seq<Index>)
    requires Indexable(sels, idx) && forall i :: 0 <= i < |sels| ==> Ascending(Axis(sels[i]))
    ensures forall i :: 0 <= i < |sels| ==> Ascending(Axis(NpIndex(sels, idx)[i]))
    decreases |sels|
  {
    if sels == [] {
    } else {
      var rest := if sels[0].One? || idx == [] then idx else idx[1..];
      NpAscending(sels[1..], rest);
      if sels[0].Many? && idx != [] { PickAscending(sels[0].ps, idx[0]); }
      forall i | 0 <= i < |sels| ensures Ascending(Axis(NpIndex(sels, idx)[i])) {
        if i > 0 { assert NpIndex(sels, idx)[i] == NpIndex(sels[1..], rest)[i - 1]; }
      }
    }
  }

  /** What numpy selects by ints and forward slices: exactly the cells whose positions lie
      on the selected axes, each once, in row-major order. */
  lemma SelectedOrder(shape: seq<nat>, idx: seq<Index>)
    requires Indexable(WholeAxes(shape), idx)
    ensures RowMajor(Selected(shape, idx)) && Distinct(Selected(shape, idx))
    ensures forall c :: c in Selected(shape, idx) <==> InSels(NpIndex(WholeAxes(shape), idx), c)
  {
    var sels := WholeAxes(shape);
    forall i | 0 <= i < |sels| ensures Ascending(Axis(sels[i])) { ElemsAscending(0, shape[i], 1); }
    NpAscending(sels, idx);
    CellsRowMajor(NpIndex(sels, idx));
    RowMajorDistinct(Selected(shape, idx));
    forall c ensures c in Selected(shape, idx) <==> InSels(NpIndex(sels, idx), c) { CellsHas(NpIndex(sels, idx), c); }
  }

  lemma SameSize<T>(a: set<T>, b: set<T>)
    requires a <= b && |a| == |b|
    ensures a == b
  {
    assert b == a + (b - a);
    assert |b| == |a| + |b - a|;
  }

  /** Counting blocks is enough: as many loaded blocks as the array has are all of
      its blocks. */
  lemma AllBlocksLoaded(shape: seq<nat>, size: int, loaded: set<Coord>)
    requires size >= 1 && forall b :: b in loaded ==> Within(WholeSpans(shape, size), b)
    ensures |loaded| == SpanProduct(WholeSpans(shape, size)) <==> forall b :: b in loaded <==>
            Within(WholeSpans(shape, size), b)
  {
    var rs := WholeSpans(shape, size);
    var all := set b | b in Product(rs);
    forall b ensures b in all <==> Within(rs, b) { ProductHas(rs, b); }
    WithinCount(rs, all);
    if |loaded| == SpanProduct(rs) { SameSize(loaded, all); }
    if forall b :: b in loaded <==> Within(rs, b) { assert loaded == all; }
  }

  /** The blocks that an index expression on the whole array touches, or the error of
      composing it or of its bounds. */
  ghost function BlocksFor(shape: seq<nat>, size: int, idx: seq<Index>): Outcome<seq<Coord>>
    requires size >= 1
  {
    match Compose(shape, FullView(|shape|), idx)
    case Done(view) =>
      (match BlockSpans(shape, size, view)
       case Done(ranges) => Done(Product(ranges))
       case TypeError => TypeError
       case IndexError => IndexError
       case NotImplementedError => NotImplementedError)
    case TypeError => TypeError
    case IndexError => IndexError
    case NotImplementedError => NotImplementedError
  }

  /** Indices that fit touch blocks of the array only, and all blocks they need. */
  lemma FitsBlocks(shape: seq<nat>, size: int, idx: seq<Index>)
    requires Proper(shape, size) && Fits(shape, FullView(|shape|), idx)
    ensures Indexable(WholeAxes(shape), idx)
    ensures var bs := BlocksFor(shape, size, idx);
            bs.Done? && BlocksOf(shape, size, bs.value) && Touched(shape, size, Selected(shape, idx), bs.value)
  {
    var full := FullView(|shape|);
    ComposeMeaning(shape, full, idx);
    var view := Compose(shape, full, idx).value;
    assert DenoteAll(shape, full) == WholeAxes(shape);
    forall i | 0 <= i < |shape| ensures BlockSpan(shape[i], size, view[i]).Done? {
      SpanInside(shape[i], size, view[i]);
    }
    RangesCover(shape, size, view, BlockSpans(shape, size, view).value);
  }

  /** Ints and forward slices: the indices whose numpy meaning is modelled. */
  predicate Modelled(idx: seq<Index>) {
    forall i :: 0 <= i < |idx| ==> idx[i].At? || Forward(idx[i])
  }

  /** With as many loaded coordinates as the array has blocks, so that the flag is set,
      everything is loaded exactly when every loaded coordinate is one of its blocks. */
  lemma FlagExact(shape: seq<nat>, size: int, loaded: set<Coord>)
    requires size >= 1 && |loaded| == SpanProduct(WholeSpans(shape, size))
    ensures Everything(shape, size, loaded) <==> forall b :: b in loaded ==> Within(WholeSpans(shape, size), b)
  {
    if forall b :: b in loaded ==> Within(WholeSpans(shape, size), b) {
      AllBlocksLoaded(shape, size, loaded);
    }
  }
}
