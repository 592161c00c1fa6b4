/** Runs on the array class in which a block that does not exist is counted as loaded. */
module PhantomRuns {
  import opened BlockSets
  import opened Collections
  import opened IndexBlocks
  import opened LazyArray
  import opened Slices
  import opened Views

  /** Eight elements, stored in blocks of four. */
  const LINE: seq<nat> := [8]

  /** The line with one value everywhere. */
  function Line<V>(v: V): map<Coord, V> {
    map i: int | 0 <= i < 8 :: [i] := v
  }

  lemma LineCovers<V>(v: V)
    ensures Covers(Line(v), LINE) && forall c :: c in Line(v) ==> Line(v)[c] == v
  {
    forall c: Coord ensures c in Line(v) <==> IsCell(LINE, c) {
      if IsCell(LINE, c) {
        assert c == [c[0]];
        assert [c[0]] in Line(v);
      }
    }
  }

  lemma WholeCount()
    ensures SpanProduct(WholeSpans(LINE, 4)) == 2
  {
    var rs := WholeSpans(LINE, 4);
    assert rs == [(0, 1)] && rs[1..] == [];
    assert SpanProduct(rs) == SpanLen(rs[0]) * SpanProduct(rs[1..]) == 2;
  }

  // ------------------------------------------------------- what an index names

  /** The blocks of the line that one index names. */
  ghost predicate Names(ix: Index, more: set<Coord>) {
    Passes(8, ix)
    && forall b: Coord ::
         b in more <==> |b| == 1 && IndexSpan(8, 4, ix).0 <= b[0] <= IndexSpan(8, 4, ix).1
  }

  lemma NamesSpan(ix: Index, lo: int, hi: int)
    requires Passes(8, ix) && IndexSpan(8, 4, ix) == (lo, hi) && lo <= hi <= lo + 1
    ensures Names(ix, {[lo], [hi]})
  {
    forall b: Coord ensures b in {[lo], [hi]} <==> |b| == 1 && lo <= b[0] <= hi {
      if |b| == 1 { assert b == [b[0]]; }
    }
  }

  lemma NamedBlocks(ix: Index, more: set<Coord>)
    requires Names(ix, more)
    ensures var r := BlocksFor(LINE, 4, [ix]); r.Done? && (set b | b in r.value) == more
  {
    BlocksForExact(LINE, 4, [ix]);
    var rs := IndexSpans(LINE, 4, [ix]);
    assert rs == [IndexSpan(8, 4, ix)];
    forall b ensures b in Product(rs) <==> b in more { ProductHas(rs, b); }
  }

  /** What numpy selects from the line. */
  lemma OneAxis(ix: Index)
    ensures Indexable(WholeAxes(LINE), [ix]) <==> Accepted(8, ix)
    ensures Accepted(8, ix) ==> Selected(LINE, [ix]) == Spread(Axis(Pick(Elems(0, 8, 1), ix)), [[]])
  {
    var sels := WholeAxes(LINE);
    CountIff(0, 8, 1, 7);
    CountIff(0, 8, 1, 8);
    assert sels == [Many(Elems(0, 8, 1))] && sels[1..] == [] && [ix][1..] == [];
    if Accepted(8, ix) {
      var pick := Pick(Elems(0, 8, 1), ix);
      assert NpIndex(sels[1..], [ix][1..]) == [];
      assert NpIndex(sels, [ix]) == [pick] && [pick][1..] == [];
      assert Cells([pick][1..]) == [[]];
      assert Cells([pick]) == Spread(Axis(pick), [[]]);
    }
  }

  lemma {:induction false} SpreadOne(ps: seq<int>)
    ensures Spread(ps, [[]]) == seq(|ps|, i requires 0 <= i < |ps| => [ps[i]])
  {
    if ps == [] {
    } else {
      SpreadOne(ps[1..]);
      assert [ps[0]] + [] == [ps[0]];
      assert Spread(ps, [[]]) == [[ps[0]]] + Spread(ps[1..], [[]]);
    }
  }

  lemma IntSelects(i: nat)
    ensures Indexable(WholeAxes(LINE), [At(i)]) <==> i < 8
    ensures i < 8 ==> Selected(LINE, [At(i)]) == [[i]]
  {
    OneAxis(At(i));
    CountIff(0, 8, 1, i);
    SpreadOne([i]);
  }

  // ------------------------------------------------------------------- reads

  /** What is left of a line: the memory of element 4, what is loaded and the flag. */
  ghost predicate Shows(x: StorageNumpy<int>, four: int, loaded: set<Coord>, flag: bool)
    reads x
  {
    x.Consistent() && x.shape == LINE && x.rowElem == 4 && x.nBlocks == 2
    && [4] in x.mem && x.mem[[4]] == four && x.loaded == loaded && x.numpyFullLoaded == flag
  }

  lemma FourStays(mem: map<Coord, int>, store: map<Coord, int>, loaded: set<Coord>, bs: seq<Coord>)
    requires [4] in mem && [1] !in bs
    ensures [4] in MemAfter(mem, store, loaded, bs, 4) && MemAfter(mem, store, loaded, bs, 4)[[4]] == mem[[4]]
  {
    assert BlockOf([4], 4) == [1];
  }

  lemma MoreLoaded(loaded: set<Coord>, more: set<Coord>)
    requires !(more <= loaded)
    ensures |loaded + more| != |loaded|
  {
    if |loaded + more| == |loaded| { SameSize(loaded, loaded + more); }
  }

  /** x[ix] of a line before anything counts as fully loaded. */
  method ReadLine(x: StorageNumpy<int>, ix: Index, ghost four: int, ghost loaded: set<Coord>, ghost more: set<Coord>)
      returns (v: Outcome<seq<int>>)
    requires Shows(x, four, loaded, false) && (ix.At? || Forward(ix)) && Names(ix, more)
    requires [1] !in more && !(more <= loaded)
    modifies x`mem, x`loaded, x`numpyFullLoaded
    ensures Shows(x, four, loaded + more, |loaded + more| == 2)
    ensures v.Done? <==> Indexable(WholeAxes(LINE), [ix])
    ensures v.Done? ==> Gives(x.mem, Selected(LINE, [ix]), v.value)
    ensures forall c :: c in x.mem && c in x.store && BlockOf(c, 4) in more ==> x.mem[c] == x.store[c]
  {
    NamedBlocks(ix, more);
    MoreLoaded(loaded, more);
    ghost var bs := BlocksFor(LINE, 4, [ix]).value;
    FourStays(x.mem, x.store, loaded, bs);
    ghost var was := Loading(x.mem, x.loaded, x.numpyFullLoaded);
    v := x.GetItem([ix]);
    assert Fetched(was, Loading(x.mem, x.loaded, x.numpyFullLoaded), x.store, 2, Done(bs), 4);
  }

  /** x[4] once everything counts as loaded. */
  method ReadFour(x: StorageNumpy<int>, ghost four: int, ghost loaded: set<Coord>) returns (v: Outcome<seq<int>>)
    requires Shows(x, four, loaded, true)
    modifies x`mem, x`loaded, x`numpyFullLoaded
    ensures v == Done([four])
  {
    IntSelects(4);
    ghost var was := Loading(x.mem, x.loaded, x.numpyFullLoaded);
    v := x.GetItem([At(4)]);
    assert Fetched(was, Loading(x.mem, x.loaded, x.numpyFullLoaded), x.store, 2, BlocksFor(LINE, 4, [At(4)]), 4);
    assert v.value == [four];
  }

  method NewLine(stored: int, reserved: int) returns (x: StorageNumpy<int>)
    ensures fresh(x) && Shows(x, reserved, {}, false) && x.store == Line(stored)
  {
    LineCovers(reserved);
    LineCovers(stored);
    WholeCount();
    x := new StorageNumpy<int>(LINE, 4, Line(reserved), Line(stored));
    assert [4] in Line(reserved);
  }

  /** The blocks that a read adds to those loaded, none of them block 1. */
  ghost predicate Adds(ix: Index, loaded: set<Coord>, more: set<Coord>, size: nat) {
    Names(ix, more) && [1] !in loaded + more && !(more <= loaded) && |loaded + more| == size
  }

  lemma AddsFirst()
    ensures Adds(At(0), {}, {[0]}, 1)
  {
    NamesSpan(At(0), 0, 0);
    assert {[0], [0]} == {[0]};
    Apart(0);
  }

  lemma AddsPhantom()
    ensures Adds(At(8), {[0]}, {[2]}, 2)
  {
    NamesSpan(At(8), 2, 2);
    assert {[2], [2]} == {[2]};
    Apart(2);
    assert {[0]} + {[2]} == {[2], [0]};
  }

  lemma AddsBoth(ix: Index)
    requires ix == Slice(Some(-10), Some(3), None)
    ensures Adds(ix, {}, {[-1], [0]}, 2)
  {
    NamesSpan(ix, -1, 0);
    Apart(-1);
    assert {} + {[-1], [0]} == {[-1], [0]};
  }

  lemma Apart(k: int)
    requires k != 1
    ensures var c: Coord, z: Coord, one: Coord := [k], [0], [1]; c != one && z != one && (k != 0 ==> |{c, z}| == 2)
  {
    var c: Coord, z: Coord, one: Coord := [k], [0], [1];
    assert c[0] == k && z[0] == 0 && one[0] == 1;
  }

  /** A read that adds some blocks; the flag is set when that makes two. */
  method ReadMore(x: StorageNumpy<int>, ix: Index, ghost four: int, ghost loaded: set<Coord>, ghost more: set<Coord>,
                  ghost size: nat) returns (v: Outcome<seq<int>>)
    requires Shows(x, four, loaded, false) && (ix.At? || Forward(ix)) && Adds(ix, loaded, more, size)
    modifies x`mem, x`loaded, x`numpyFullLoaded
    ensures Shows(x, four, loaded + more, size == 2) && [1] !in x.loaded
    ensures Indexable(WholeAxes(LINE), [ix]) ==> v.Done? && Gives(x.mem, Selected(LINE, [ix]), v.value)
    ensures forall c :: c in x.mem && c in x.store && BlockOf(c, 4) in more ==> x.mem[c] == x.store[c]
  {
    v := ReadLine(x, ix, four, loaded, more);
  }

  /** Reading x[0] and then x[8], an error, on a line of eight elements in blocks of four
      sets the full-load flag with block 1 missing.  From then on x[4] shows what memory
      held before, not what the table holds. */
  method PhantomRun(stored: int, reserved: int) returns (shown: Outcome<seq<int>>, flag: bool, missing: bool)
    ensures flag && missing && shown == Done([reserved])
  {
    var x := NewLine(stored, reserved);
    AddsFirst();
    AddsPhantom();
    var first := ReadMore(x, At(0), reserved, {}, {[0]}, 1);
    assert {} + {[0]} == {[0]};
    var second := ReadMore(x, At(8), reserved, {[0]}, {[2]}, 2);
    flag, missing := x.numpyFullLoaded, [1] !in x.loaded;
    shown := ReadFour(x, reserved, {[0]} + {[2]});
  }

  /** The slice x[-10:3] alone does the same: it shows the right three elements, and names
      block -1 besides block 0. */
  method PhantomSliceRun(stored: int, reserved: int)
      returns (first: Outcome<seq<int>>, shown: Outcome<seq<int>>, flag: bool, missing: bool)
    ensures first == Done([stored, stored, stored]) && flag && missing && shown == Done([reserved])
  {
    var x := NewLine(stored, reserved);
    var ix := Slice(Some(-10), Some(3), None);
    AddsBoth(ix);
    SliceSelects(ix);
    first := ReadMore(x, ix, reserved, {}, {[-1], [0]}, 2);
    FirstThree(x.mem, x.store, {[-1], [0]}, stored, first.value);
    flag, missing := x.numpyFullLoaded, [1] !in x.loaded;
    shown := ReadFour(x, reserved, {} + {[-1], [0]});
  }

  lemma SliceSelects(ix: Index)
    requires ix == Slice(Some(-10), Some(3), None)
    ensures Indexable(WholeAxes(LINE), [ix]) && Selected(LINE, [ix]) == [[0], [1], [2]]
  {
    OneAxis(ix);
    CountIff(0, 3, 1, 2);
    CountIff(0, 3, 1, 3);
    CountIff(0, 8, 1, 2);
    assert Axis(Pick(Elems(0, 8, 1), ix)) == [0, 1, 2];
    SpreadOne([0, 1, 2]);
  }

  lemma FirstThree(mem: map<Coord, int>, store: map<Coord, int>, more: set<Coord>, stored: int, values: seq<int>)
    requires Gives(mem, [[0], [1], [2]], values) && store == Line(stored) && [0] in more
    requires forall c :: c in mem && c in store && BlockOf(c, 4) in more ==> mem[c] == store[c]
    ensures values == [stored, stored, stored]
  {
    LineCovers(stored);
    var cells: seq<Coord> := [[0], [1], [2]];
    forall i | 0 <= i < 3 ensures values[i] == stored {
      assert BlockOf(cells[i], 4) == [0] && cells[i] == [i];
      assert IsCell(LINE, cells[i]);
    }
  }
}
