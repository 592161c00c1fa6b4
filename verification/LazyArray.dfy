/** A persistent array whose blocks are loaded on demand and written through. */
module LazyArray {
  import opened Arith
  import opened BlockSets
  import opened Collections
  import opened IndexBlocks
  import opened Slices
  import opened Views

  // ------------------------------------------------------------------ arrays

  /** `into` with the cells of the blocks `bs` replaced from `src`. */
  function Overlay<V>(into: map<Coord, V>, src: map<Coord, V>, bs: seq<Coord>, size: int): map<Coord, V>
    requires size >= 1
  {
    map c | c in into :: if c in src && BlockOf(c, size) in bs then src[c] else into[c]
  }

  /** A plain array after `m[cs[i]] = vs[i]` for each i in turn. */
  function Assign<V>(m: map<Coord, V>, cs: seq<Coord>, vs: seq<V>): (r: map<Coord, V>)
    requires |cs| == |vs| && forall i :: 0 <= i < |cs| ==> cs[i] in m
    ensures r.Keys == m.Keys
  {
    if cs == [] then m
    else Assign(m, cs[..|cs| - 1], vs[..|vs| - 1])[cs[|cs| - 1] := vs[|vs| - 1]]
  }

  lemma {:induction false} AssignAt<V>(m: map<Coord, V>, k: map<Coord, V>, cs: seq<Coord>, vs: seq<V>, c: Coord)
    requires |cs| == |vs| && m.Keys == k.Keys && c in m
    requires forall i :: 0 <= i < |cs| ==> cs[i] in m
    ensures c !in cs ==> Assign(m, cs, vs)[c] == m[c]
    ensures m[c] == k[c] || c in cs ==> Assign(m, cs, vs)[c] == Assign(k, cs, vs)[c]
  {
    if cs == [] {
    } else {
      AssignAt(m, k, cs[..|cs| - 1], vs[..|vs| - 1], c);
      assert cs == cs[..|cs| - 1] + [cs[|cs| - 1]];
    }
  }

  /** A written cell holds the last value written to it. */
  lemma {:induction false} AssignLast<V>(m: map<Coord, V>, cs: seq<Coord>, vs: seq<V>, i: nat)
    requires i < |cs| == |vs| && forall j :: 0 <= j < |cs| ==> cs[j] in m
    requires forall j :: i < j < |cs| ==> cs[j] != cs[i]
    ensures Assign(m, cs, vs)[cs[i]] == vs[i]
  {
    if i == |cs| - 1 {
    } else {
      AssignLast(m, cs[..|cs| - 1], vs[..|vs| - 1], i);
    }
  }

  /** From `was` to `now` exactly the listed cells have changed, to their values. */
  ghost predicate Written<V>(was: map<Coord, V>, now: map<Coord, V>, cells: seq<Coord>, values: seq<V>) {
    && now.Keys == was.Keys && Gives(now, cells, values)
    && forall c :: c in was && c !in cells ==> now[c] == was[c]
  }

  /** Assigning to different cells writes each its own value and nothing else. */
  lemma AssignWrites<V>(m: map<Coord, V>, cells: seq<Coord>, values: seq<V>)
    requires |cells| == |values| && Distinct(cells) && forall c :: c in cells ==> c in m
    ensures Written(m, Assign(m, cells, values), cells, values)
  {
    forall i | 0 <= i < |cells| ensures Assign(m, cells, values)[cells[i]] == values[i] {
      AssignLast(m, cells, values, i);
    }
    forall c | c in m && c !in cells ensures Assign(m, cells, values)[c] == m[c] { AssignAt(m, m, cells, values, c); }
  }

  /** The cells of block `b` are the same in memory as in the plain array. */
  ghost predicate Current<V>(mem: map<Coord, V>, logical: map<Coord, V>, b: Coord, size: int)
    requires size >= 1
  {
    forall c :: c in mem && c in logical && BlockOf(c, size) == b ==> mem[c] == logical[c]
  }

  lemma OverlayCurrent<V>(mem: map<Coord, V>, logical: map<Coord, V>, loaded: set<Coord>, bs: seq<Coord>, size: int)
    requires size >= 1 && mem.Keys == logical.Keys
    requires forall b :: b in loaded ==> Current(mem, logical, b, size)
    ensures Overlay(mem, logical, bs, size).Keys == mem.Keys
    ensures forall b :: b in loaded || b in bs ==> Current(Overlay(mem, logical, bs, size), logical, b, size)
    ensures mem == logical ==> Overlay(mem, logical, bs, size) == mem
  {
    var now := Overlay(mem, logical, bs, size);
    forall b | b in loaded || b in bs ensures Current(now, logical, b, size) {
      forall c | c in now && c in logical && BlockOf(c, size) == b ensures now[c] == logical[c] {
        if b !in bs { assert Current(mem, logical, b, size); }
      }
    }
  }

  lemma AllCurrent<V>(shape: seq<nat>, size: int, mem: map<Coord, V>, logical: map<Coord, V>, loaded: set<Coord>)
    requires size >= 1 && mem.Keys == logical.Keys && forall c :: c in mem ==> IsCell(shape, c)
    requires forall b :: b in loaded <==> Within(WholeSpans(shape, size), b)
    requires forall b :: b in loaded ==> Current(mem, logical, b, size)
    ensures mem == logical
  {
    forall c | c in mem ensures mem[c] == logical[c] {
      CellBlock(shape, size, c);
      assert Current(mem, logical, BlockOf(c, size), size);
    }
  }

  ghost predicate Covers<V>(m: map<Coord, V>, shape: seq<nat>) {
    forall c :: c in m <==> IsCell(shape, c)
  }

  /** Every loaded block is current; of a block that does not exist that says nothing. */
  ghost predicate Synced<V>(mem: map<Coord, V>, logical: map<Coord, V>, loaded: set<Coord>, size: int)
    requires size >= 1
  {
    forall b :: b in loaded ==> Current(mem, logical, b, size)
  }

  /** The cells, one by one, as the map holds them. */
  ghost predicate Gives<V>(m: map<Coord, V>, cells: seq<Coord>, values: seq<V>) {
    |values| == |cells| && forall i :: 0 <= i < |cells| ==> cells[i] in m && values[i] == m[cells[i]]
  }

  /** Memory that is fully loaded, or whose needed blocks are loaded, is current on
      the selected cells. */
  lemma SelectedCurrent<V>(shape: seq<nat>, size: int, mem: map<Coord, V>, logical: map<Coord, V>, loaded: set<Coord>,
                           blocks: seq<Coord>, cells: seq<Coord>)
    requires size >= 1 && Covers(mem, shape) && mem.Keys == logical.Keys && Synced(mem, logical, loaded, size)
    requires Touched(shape, size, cells, blocks)
    requires mem == logical || forall b :: b in blocks ==> b in loaded
    ensures forall i :: 0 <= i < |cells| ==> cells[i] in mem && mem[cells[i]] == logical[cells[i]]
  {
    forall i | 0 <= i < |cells| ensures cells[i] in mem && mem[cells[i]] == logical[cells[i]] {
      var c := cells[i];
      assert c in cells && IsCell(shape, c);
      if mem != logical { assert Current(mem, logical, BlockOf(c, size), size); }
    }
  }

  /** What loading some coordinates leaves in memory. */
  function MemAfter<V>(mem: map<Coord, V>, store: map<Coord, V>, loaded: set<Coord>, bs: seq<Coord>,
                       size: int): map<Coord, V>
    requires size >= 1
  {
    if |loaded + set b | b in bs| != |loaded| then Overlay(mem, store, bs, size) else mem
  }

  /** What it leaves in the full-load flag: a count of coordinates, real or not. */
  function FlagAfter(flag: bool, loaded: set<Coord>, bs: seq<Coord>, nBlocks: nat): bool {
    var now := loaded + set b | b in bs;
    if |now| != |loaded| then |now| == nBlocks else flag
  }

  /** What reading the table changes of an object. */
  datatype Loading<V> = Loading(mem: map<Coord, V>, loaded: set<Coord>, full: bool)

  /** From `was` to `now` by fetching blocks: nothing changes when everything counts as
      loaded, or when the blocks could not be computed. */
  ghost predicate Fetched<V>(was: Loading<V>, now: Loading<V>, store: map<Coord, V>, nBlocks: nat,
                             blocks: Outcome<seq<Coord>>, size: int)
    requires size >= 1
  {
    if was.full || !blocks.Done? then now == was
    else
      && now.loaded == was.loaded + (set b | b in blocks.value)
      && now.mem == MemAfter(was.mem, store, was.loaded, blocks.value, size)
      && now.full == FlagAfter(false, was.loaded, blocks.value, nBlocks)
  }

  class StorageNumpy<V> {
    const shape: seq<nat>
    const rowElem: int
    var mem: map<Coord, V>        // the base array in memory
    var store: map<Coord, V>      // the rows of the table, cell by cell
    var loaded: set<Coord>        // _loaded_coordinates
    var numpyFullLoaded: bool
    var nBlocks: nat
    ghost var logical: map<Coord, V> // the plain array

    /** The table is the plain array and loaded blocks are current. */
    ghost predicate Consistent()
      reads this
    {
      && Proper(shape, rowElem)
      && mem.Keys == logical.Keys && Covers(logical, shape)
      && store == logical
      && nBlocks == SpanProduct(WholeSpans(shape, rowElem))
      && Synced(mem, logical, loaded, rowElem)
    }

    ghost predicate OnlyLoadsReal()
      requires rowElem >= 1
      reads this
    {
      forall b :: b in loaded ==> Within(WholeSpans(shape, rowElem), b)
    }

    /** Besides, only blocks of the array are loaded, and the flag tells the truth. */
    ghost predicate Valid()
      reads this
    {
      && Consistent() && OnlyLoadsReal()
      && (numpyFullLoaded ==> mem == logical)
    }

    /** An object that reserves memory for an array already in the table. */
    constructor (shape: seq<nat>, rowElem: int, reserved: map<Coord, V>, stored: map<Coord, V>)
      requires Proper(shape, rowElem) && reserved.Keys == stored.Keys && Covers(stored, shape)
      ensures Valid() && logical == stored && loaded == {} && !numpyFullLoaded && mem == reserved
      ensures this.shape == shape && this.rowElem == rowElem
    {
      this.shape, this.rowElem := shape, rowElem;
      mem, store, loaded, numpyFullLoaded := reserved, stored, {}, false;
      logical := stored;
      nBlocks := 0;
      new;
      FullSpans(shape, rowElem);
      var ok := CalculateNBlocks(FullView(|shape|));
    }

    /** _calculate_nblocks: the number of blocks that a view touches; `false` stands for
        the IndexError of its bounds. */
    method CalculateNBlocks(view: seq<Index>) returns (ok: bool)
      requires rowElem >= 1 && |view| <= |shape| && NoOther(view)
      modifies this`nBlocks
      ensures ok <==> BlockSpans(shape, rowElem, view).Done?
      ensures nBlocks == if ok then SpanProduct(BlockSpans(shape, rowElem, view).value) else old(nBlocks)
    {
      var l := BlockRanges(shape, rowElem, view);
      if !l.Done? {
        return false;
      }
      var numBlocks: nat := 1;
      for i := 0 to |l.value|
        invariant numBlocks * SpanProduct(l.value[i..]) == SpanProduct(l.value)
      {
        assert l.value[i..][1..] == l.value[i + 1..];
        MulAssoc(numBlocks, SpanLen(l.value[i]), SpanProduct(l.value[i + 1..]));
        numBlocks := numBlocks * SpanLen(l.value[i]);
      }
      nBlocks := numBlocks;
      ok := true;
    }

    /** _load_blocks, of any coordinates: the union of the loaded and the new coordinates
        decides whether anything is read and whether the array counts as fully loaded.
        The flag is still sure to tell the truth exactly with blocks of the array only. */
    method LoadBlocks(newCoords: seq<Coord>)
      requires Consistent()
      modifies this`mem, this`loaded, this`numpyFullLoaded
      ensures Consistent() && loaded == old(loaded) + set b | b in newCoords
      ensures mem == MemAfter(old(mem), store, old(loaded), newCoords, rowElem)
      ensures numpyFullLoaded == FlagAfter(old(numpyFullLoaded), old(loaded), newCoords, nBlocks)
      ensures old(Valid()) ==> (Valid() <==> BlocksOf(shape, rowElem, newCoords))
      ensures old(Valid()) && BlocksOf(shape, rowElem, newCoords) && numpyFullLoaded && !old(numpyFullLoaded) ==>
                Everything(shape, rowElem, loaded)
    {
      ghost var sound := Valid() && BlocksOf(shape, rowElem, newCoords);
      var coordinates := loaded + set b | b in newCoords;
      if |coordinates| != |loaded| {
        if sound { AllBlocksLoaded(shape, rowElem, coordinates); }
        numpyFullLoaded := |coordinates| == nBlocks;
        OverlayCurrent(mem, logical, loaded, newCoords, rowElem);
        loaded := coordinates;
        mem := Overlay(mem, store, newCoords, rowElem);
        assert Synced(mem, logical, loaded, rowElem);
        if sound && numpyFullLoaded {
          AllCurrent(shape, rowElem, mem, logical, loaded);
        }
      } else {
        SameSize(loaded, coordinates);
      }
    }

    /** _view_composer_new and _select_blocks. */
    method SelectBlocks(idx: seq<Index>) returns (blocks: Outcome<seq<Coord>>)
      requires rowElem >= 1
      ensures blocks == BlocksFor(shape, rowElem, idx)
    {
      var big := ViewComposer(shape, FullView(|shape|), idx);
      match big
      case Done(view) =>
        ComposeNoOther(shape, FullView(|shape|), idx);
        var ranges := BlockRanges(shape, rowElem, view);
        match ranges {
          case Done(l) => blocks := Done(Product(l));
          case TypeError => blocks := TypeError;
          case IndexError => blocks := IndexError;
          case NotImplementedError => blocks := NotImplementedError;
        }
      case TypeError => blocks := TypeError;
      case IndexError => blocks := IndexError;
      case NotImplementedError => blocks := NotImplementedError;
    }

    /** Loads what an index needs, unless everything counts as loaded. */
    method EnsureLoaded(blocks: seq<Coord>)
      requires Consistent()
      modifies this`mem, this`loaded, this`numpyFullLoaded
      ensures Consistent() && old(loaded) <= loaded
      ensures Fetched(Loading(old(mem), old(loaded), old(numpyFullLoaded)), Loading(mem, loaded, numpyFullLoaded),
                      store, nBlocks, Done(blocks), rowElem)
      ensures old(Valid()) && BlocksOf(shape, rowElem, blocks) ==>
                Valid() && (mem == logical || forall b :: b in blocks ==> b in loaded)
      ensures old(Valid()) && BlocksOf(shape, rowElem, blocks) && numpyFullLoaded && !old(numpyFullLoaded) ==>
                Everything(shape, rowElem, loaded)
    {
      if !numpyFullLoaded {
        LoadBlocks(blocks);
      }
    }

    /** The numpy indexing of the memory. */
    method ReadMemory(idx: seq<Index>) returns (values: Outcome<seq<V>>)
      requires Covers(mem, shape)
      ensures values.Done? <==> Indexable(WholeAxes(shape), idx)
      ensures values.Done? ==> Gives(mem, Selected(shape, idx), values.value) && RowMajor(Selected(shape, idx))
      ensures !values.Done? ==> values == IndexError
    {
      if !Indexable(WholeAxes(shape), idx) {
        return IndexError;
      }
      var cells := Cells(NpIndex(WholeAxes(shape), idx));
      SelectedCells(shape, idx);
      SelectedOrder(shape, idx);
      values := Done(seq(|cells|, i requires 0 <= i < |cells| reads this requires cells[i] in mem => mem[cells[i]]));
    }

    /** __getitem__ of ints and forward slices: loads the blocks it needs, then lets
        numpy index the memory.  While the flag tells the truth, indices that fit are
        read without error and every element returned is current; and the object stays
        sound exactly when the flag was set, an index was refused, or none names a block
        that does not exist. */
    method GetItem(idx: seq<Index>) returns (values: Outcome<seq<V>>)
      requires Consistent() && Modelled(idx)
      modifies this`mem, this`loaded, this`numpyFullLoaded
      ensures Consistent() && old(loaded) <= loaded
      ensures old(Valid()) ==>
                (Valid() <==> old(numpyFullLoaded) || !AllPass(shape, idx) || OnlyReal(shape, rowElem, idx))
      ensures old(Valid()) && Fits(shape, FullView(|shape|), idx) ==>
                Valid() && values.Done? && Indexable(WholeAxes(shape), idx)
                    && Gives(logical, Selected(shape, idx), values.value)
      ensures old(Valid()) && Fits(shape, FullView(|shape|), idx) && numpyFullLoaded && !old(numpyFullLoaded) ==>
                Everything(shape, rowElem, loaded)
      ensures values.Done? ==> Indexable(WholeAxes(shape), idx) && Gives(mem, Selected(shape, idx), values.value)
      ensures values.Done? ==> RowMajor(Selected(shape, idx))
      ensures values.Done? <==>
                (old(numpyFullLoaded) || BlocksFor(shape, rowElem, idx).Done?) && Indexable(WholeAxes(shape), idx)
      ensures Fetched(Loading(old(mem), old(loaded), old(numpyFullLoaded)), Loading(mem, loaded, numpyFullLoaded),
                      store, nBlocks, BlocksFor(shape, rowElem, idx), rowElem)
    {
      ghost var fits := Valid() && Fits(shape, FullView(|shape|), idx);
      if fits { FitsBlocks(shape, rowElem, idx); }
      BlocksForExact(shape, rowElem, idx);
      if AllPass(shape, idx) { RealBlocksExact(shape, rowElem, idx); }
      if !numpyFullLoaded {
        var blocks := SelectBlocks(idx);
        match blocks
        case Done(bs) => LoadBlocks(bs);
        case TypeError => return TypeError;
        case IndexError => return IndexError;
        case NotImplementedError => return NotImplementedError;
      }
      values := ReadMemory(idx);
      if fits {
        SelectedCurrent(shape, rowElem, mem, logical, loaded, BlocksFor(shape, rowElem, idx).value,
                        Selected(shape, idx));
      }
    }

    /** The assignment to memory, and the store of the blocks it touched. */
    method WriteBlocks(cells: seq<Coord>, values: seq<V>, blocks: seq<Coord>)
      requires Covers(mem, shape) && mem.Keys == logical.Keys == store.Keys && rowElem >= 1 && |values| == |cells|
      requires forall c :: c in cells ==> c in mem
      modifies this`mem, this`store, this`logical
      ensures mem == Assign(old(mem), cells, values)
      ensures store == Overlay(old(store), mem, blocks, rowElem)
      ensures logical == Assign(old(logical), cells, values)
    {
      mem := Assign(mem, cells, values);
      logical := Assign(logical, cells, values);
      store := Overlay(store, mem, blocks, rowElem);
    }

    /** __setitem__ of ints and forward slices: loads the blocks it needs, writes memory,
        writes the blocks through.  `values` are the values numpy assigns, cell by cell.
        While the flag tells the truth, indices that fit are written without error and
        the plain array changes by exactly this assignment; only blocks that exist are
        recorded exactly when the flag was set or the indices name no other. */
    method SetItem(idx: seq<Index>, values: seq<V>) returns (res: Outcome<()>)
      requires Consistent() && Modelled(idx)
      requires Indexable(WholeAxes(shape), idx) ==> |values| == |Selected(shape, idx)|
      modifies this
      ensures res.Done? ==>
                && Indexable(WholeAxes(shape), idx) && (forall c :: c in Selected(shape, idx) ==> c in old(logical))
                && logical == Assign(old(logical), Selected(shape, idx), values)
                && Written(old(logical), logical, Selected(shape, idx), values)
      ensures !res.Done? ==> logical == old(logical) && store == old(store) && Consistent()
      ensures old(Valid()) && res.Done? ==>
                AllPass(shape, idx) && (OnlyLoadsReal() <==> old(numpyFullLoaded) || OnlyReal(shape, rowElem, idx))
      ensures old(Valid()) && Fits(shape, FullView(|shape|), idx) ==> Valid() && res.Done?
      ensures old(Valid()) && Fits(shape, FullView(|shape|), idx) && numpyFullLoaded && !old(numpyFullLoaded) ==>
                Everything(shape, rowElem, loaded)
      ensures res.Done? && old(numpyFullLoaded) ==>
                && BlocksFor(shape, rowElem, idx).Done? && (forall c :: c in Selected(shape, idx) ==> c in old(mem))
                && mem == Assign(old(mem), Selected(shape, idx), values)
                && store == Overlay(old(store), mem, BlocksFor(shape, rowElem, idx).value, rowElem)
      ensures res.Done? <==> BlocksFor(shape, rowElem, idx).Done? && Indexable(WholeAxes(shape), idx)
    {
      ghost var fits := Valid() && Fits(shape, FullView(|shape|), idx);
      if fits { FitsBlocks(shape, rowElem, idx); }
      BlocksForExact(shape, rowElem, idx);
      if AllPass(shape, idx) { RealBlocksExact(shape, rowElem, idx); }
      var blocks := SelectBlocks(idx);
      match blocks {
        case Done(_) =>
        case TypeError => return TypeError;
        case IndexError => return IndexError;
        case NotImplementedError => return NotImplementedError;
      }
      EnsureLoaded(blocks.value);
      assert old(Valid()) ==> (OnlyLoadsReal() <==> old(numpyFullLoaded) || OnlyReal(shape, rowElem, idx));
      if !Indexable(WholeAxes(shape), idx) {
        return IndexError;
      }
      var cells := Cells(NpIndex(WholeAxes(shape), idx));
      SelectedCells(shape, idx);
      SelectedOrder(shape, idx);
      AssignWrites(logical, cells, values);
      if fits { WriteThrough(shape, mem, logical, loaded, blocks.value, cells, values, rowElem); }
      WriteBlocks(cells, values, blocks.value);
      res := Done(());
    }
  }

  lemma WriteKeepsCurrent<V>(mem: map<Coord, V>, logical: map<Coord, V>, cells: seq<Coord>, values: seq<V>, b: Coord,
                             size: int)
    requires size >= 1 && mem.Keys == logical.Keys && |cells| == |values|
    requires (forall c :: c in cells ==> c in mem) && Current(mem, logical, b, size)
    ensures Current(Assign(mem, cells, values), Assign(logical, cells, values), b, size)
  {
    var m, l := Assign(mem, cells, values), Assign(logical, cells, values);
    forall c | c in m && c in l && BlockOf(c, size) == b ensures m[c] == l[c] {
      AssignAt(mem, logical, cells, values, c);
    }
  }

  /** Writing cells whose blocks are current keeps every loaded block current, and
      storing those blocks brings the table up to date. */
  lemma WriteThrough<V>(shape: seq<nat>, mem: map<Coord, V>, logical: map<Coord, V>, loaded: set<Coord>,
                        blocks: seq<Coord>, cells: seq<Coord>, values: seq<V>, size: int)
    requires size >= 1 && mem.Keys == logical.Keys && Covers(logical, shape) && |cells| == |values|
    requires Touched(shape, size, cells, blocks) && Synced(mem, logical, loaded, size)
    requires mem == logical || forall b :: b in blocks ==> b in loaded
    ensures forall c :: c in cells ==> c in mem && c in logical
    ensures Covers(Assign(logical, cells, values), shape)
    ensures Synced(Assign(mem, cells, values), Assign(logical, cells, values), loaded, size)
    ensures Overlay(logical, Assign(mem, cells, values), blocks, size) == Assign(logical, cells, values)
  {
    forall b | b in loaded
      ensures Current(Assign(mem, cells, values), Assign(logical, cells, values), b, size)
    {
      WriteKeepsCurrent(mem, logical, cells, values, b, size);
    }
    forall c | c in logical && BlockOf(c, size) in blocks ensures mem[c] == logical[c] {
      if mem != logical { assert Current(mem, logical, BlockOf(c, size), size); }
    }
    WriteStored(mem, logical, blocks, cells, values, size);
  }

  /** Storing the blocks that were written brings the table up to date. */
  lemma WriteStored<V>(mem: map<Coord, V>, logical: map<Coord, V>, blocks: seq<Coord>, cells: seq<Coord>,
                       values: seq<V>, size: int)
    requires size >= 1 && mem.Keys == logical.Keys && |cells| == |values|
    requires forall x :: x in cells ==> x in mem && BlockOf(x, size) in blocks
    requires forall c :: c in logical && BlockOf(c, size) in blocks ==> mem[c] == logical[c]
    ensures Overlay(logical, Assign(mem, cells, values), blocks, size) == Assign(logical, cells, values)
  {
    var o, l := Overlay(logical, Assign(mem, cells, values), blocks, size), Assign(logical, cells, values);
    forall c | c in logical ensures o[c] == l[c] {
      WriteCell(mem, logical, blocks, cells, values, c, size);
    }
  }

  /** One cell of the table after writing through. */
  lemma WriteCell<V>(mem: map<Coord, V>, logical: map<Coord, V>, blocks: seq<Coord>, cells: seq<Coord>, values: seq<V>,
                     c: Coord, size: int)
    requires size >= 1 && mem.Keys == logical.Keys && |cells| == |values| && c in logical
    requires forall x :: x in cells ==> x in mem && BlockOf(x, size) in blocks
    requires BlockOf(c, size) in blocks ==> mem[c] == logical[c]
    ensures Overlay(logical, Assign(mem, cells, values), blocks, size)[c] == Assign(logical, cells, values)[c]
  {
    AssignAt(mem, logical, cells, values, c);
    AssignAt(logical, mem, cells, values, c);
  }

  // ----------------------------------------------------------- write and read

  /** What reading the cells `read` gives after `values` were assigned to `cells`. */
  ghost predicate ReadsBack<V>(was: map<Coord, V>, cells: seq<Coord>, values: seq<V>, read: seq<Coord>, got: seq<V>)
    requires |values| == |cells|
  {
    && |got| == |read|
    && (forall k, i :: 0 <= k < |read| && 0 <= i < |cells| && read[k] == cells[i] ==> got[k] == values[i])
    && (forall k :: 0 <= k < |read| && read[k] !in cells ==> read[k] in was && got[k] == was[read[k]])
  }

  lemma WrittenReadsBack<V>(was: map<Coord, V>, now: map<Coord, V>, cells: seq<Coord>, values: seq<V>,
                            read: seq<Coord>, got: seq<V>)
    requires |values| == |cells| && Written(was, now, cells, values) && Gives(now, read, got)
    ensures ReadsBack(was, cells, values, read, got)
    ensures read == cells ==> got == values
  {}

  /** x[idx] = values and then x[other]: element by element what was assigned, and what was
      there elsewhere; x[idx] itself gives back the values. */
  method SetThenGet<V>(x: StorageNumpy<V>, idx: seq<Index>, values: seq<V>, other: seq<Index>)
      returns (got: Outcome<seq<V>>)
    requires x.Valid() && Modelled(idx) && Modelled(other)
    requires Fits(x.shape, FullView(|x.shape|), idx) && Fits(x.shape, FullView(|x.shape|), other)
    requires Indexable(WholeAxes(x.shape), idx) ==> |values| == |Selected(x.shape, idx)|
    modifies x
    ensures x.Valid() && Indexable(WholeAxes(x.shape), idx) && Indexable(WholeAxes(x.shape), other) && got.Done?
    ensures ReadsBack(old(x.logical), Selected(x.shape, idx), values, Selected(x.shape, other), got.value)
    ensures other == idx ==> got.value == values
  {
    ghost var was := x.logical;
    var res := x.SetItem(idx, values);
    ghost var now := x.logical;
    got := x.GetItem(other);
    WrittenReadsBack(was, now, Selected(x.shape, idx), values, Selected(x.shape, other), got.value);
  }

  /** The assignment is in the table: another object over it reads the same. */
  method SetThenReopen<V>(x: StorageNumpy<V>, idx: seq<Index>, values: seq<V>, other: seq<Index>,
                          reserved: map<Coord, V>) returns (got: Outcome<seq<V>>)
    requires x.Valid() && Modelled(idx) && Modelled(other) && reserved.Keys == x.store.Keys
    requires Fits(x.shape, FullView(|x.shape|), idx) && Fits(x.shape, FullView(|x.shape|), other)
    requires Indexable(WholeAxes(x.shape), idx) ==> |values| == |Selected(x.shape, idx)|
    modifies x
    ensures Indexable(WholeAxes(x.shape), idx) && Indexable(WholeAxes(x.shape), other) && got.Done?
    ensures ReadsBack(old(x.logical), Selected(x.shape, idx), values, Selected(x.shape, other), got.value)
  {
    ghost var was := x.logical;
    var res := x.SetItem(idx, values);
    var y := new StorageNumpy(x.shape, x.rowElem, reserved, x.store);
    got := y.GetItem(other);
    WrittenReadsBack(was, x.logical, Selected(x.shape, idx), values, Selected(x.shape, other), got.value);
  }
}
