/** Block counters and block coordinates: the mixed-radix arithmetic that both
    partition generators use to walk over a grid of blocks. */
module MixedRadix {
  import opened Arith

  ghost predicate InShape(ix: seq<nat>, dims: seq<nat>) {
    |ix| == |dims| && forall i :: 0 <= i < |ix| ==> ix[i] < dims[i]
  }

  /** Row-major position of `ix`, most significant dimension first. */
  ghost function Rank(dims: seq<nat>, ix: seq<nat>): nat
    requires |ix| == |dims|
  {
    if dims == [] then 0 else ix[0] * Prod(dims[1..]) + Rank(dims[1..], ix[1..])
  }

  /** Coordinates of the cell at row-major position `id`. */
  ghost function Digits(id: nat, dims: seq<nat>): (ix: seq<nat>)
    requires AllPos(dims)
    ensures |ix| == |dims|
  {
    if dims == [] then [] else
    if |dims| == 1 then [id]
    else
      ProdPos(dims[1..]);
      [id / Prod(dims[1..])] + Digits(id % Prod(dims[1..]), dims[1..])
  }

  lemma {:induction false} RankBound(dims: seq<nat>, ix: seq<nat>)
    requires InShape(ix, dims)
    ensures Rank(dims, ix) < Prod(dims)
  {
    if dims == [] {
    } else {
      RankBound(dims[1..], ix[1..]);
      var x, d, t := ix[0], dims[0], Prod(dims[1..]);
      MulLe(x + 1, d, t);
      assert x * t + t == (x + 1) * t;
    }
  }

  lemma {:induction false} DigitsInShape(id: nat, dims: seq<nat>)
    requires dims != [] && AllPos(dims) && id < Prod(dims)
    ensures InShape(Digits(id, dims), dims)
  {
    if |dims| == 1 {
      assert Prod(dims) == dims[0] * Prod(dims[1..]) == dims[0];
    } else {
      var t := Prod(dims[1..]);
      ProdPos(dims[1..]);
      DivBelow(id, t, dims[0]);
      DigitsInShape(id % t, dims[1..]);
    }
  }

  /** getBlockCounter undoes getIndexes. */
  lemma {:induction false} RankOfDigits(id: nat, dims: seq<nat>)
    requires dims != [] && AllPos(dims)
    ensures Rank(dims, Digits(id, dims)) == id
  {
    if |dims| == 1 {
      assert Rank(dims[1..], Digits(id, dims)[1..]) == 0;
      assert Prod(dims[1..]) == 1;
    } else {
      ProdPos(dims[1..]);
      RankOfDigits(id % Prod(dims[1..]), dims[1..]);
    }
  }

  /** getIndexes undoes getBlockCounter, on every coordinate of the grid. */
  lemma {:induction false} DigitsOfRank(dims: seq<nat>, ix: seq<nat>)
    requires dims != [] && InShape(ix, dims)
    ensures AllPos(dims)
    ensures Digits(Rank(dims, ix), dims) == ix
  {
    assert AllPos(dims) by {
      forall i | 0 <= i < |dims| ensures 0 < dims[i] { assert ix[i] < dims[i]; }
    }
    if |dims| == 1 {
      assert Rank(dims[1..], ix[1..]) == 0;
      assert Prod(dims[1..]) == 1;
    } else {
      var rest := Rank(dims[1..], ix[1..]);
      RankBound(dims[1..], ix[1..]);
      DivModUnique(Rank(dims, ix), Prod(dims[1..]), ix[0], rest);
      DigitsOfRank(dims[1..], ix[1..]);
      assert ix == [ix[0]] + ix[1..];
    }
  }

  method GetBlockCounter(ccs: seq<nat>, dims: seq<nat>) returns (valor: nat)
    requires |ccs| == |dims|
    ensures valor == Rank(dims, ccs)
  {
    var totalSize: nat := 1;
    valor := 0;
    var i := |ccs| - 1;
    while i >= 0
      invariant -1 <= i < |ccs|
      invariant totalSize == Prod(dims[i + 1..])
      invariant valor == Rank(dims[i + 1..], ccs[i + 1..])
    {
      assert dims[i..][1..] == dims[i + 1..] && ccs[i..][1..] == ccs[i + 1..];
      valor := ccs[i] * totalSize + valor;
      totalSize := totalSize * dims[i];
      i := i - 1;
    }
    assert dims[0..] == dims && ccs[0..] == ccs;
  }

  /** One digit of the suffix from `i` on, and the weight of the next. */
  lemma DigitsStep(id: nat, dims: seq<nat>, i: nat)
    requires AllPos(dims) && i + 1 < |dims|
    ensures 0 < Prod(dims[i + 1..]) && Prod(dims[i + 1..]) / dims[i + 1] == Prod(dims[i + 2..])
    ensures Digits(id, dims[i..]) == [id / Prod(dims[i + 1..])] + Digits(id % Prod(dims[i + 1..]), dims[i + 1..])
  {
    ProdPos(dims[i + 1..]);
    ProdSuffix(dims, i + 1);
    assert dims[i..][1..] == dims[i + 1..];
    DivModUnique(Prod(dims[i + 1..]), dims[i + 1], Prod(dims[i + 2..]), 0);
  }

  lemma SetDigit(ccs: seq<nat>, i: nat, x: nat, rest: seq<nat>)
    requires i < |ccs|
    ensures ccs[i := x][..i + 1] + rest == ccs[..i] + ([x] + rest)
  {}

  /** std::accumulate over the dimensions. */
  method TotalSize(dims: seq<nat>) returns (totalSize: nat)
    ensures totalSize == Prod(dims)
  {
    totalSize := 1;
    for k := 0 to |dims|
      invariant totalSize == Prod(dims[..k])
    {
      ProdPrefix(dims, k);
      totalSize := totalSize * dims[k];
    }
    assert dims[..|dims|] == dims;
  }

  method GetIndexes(counter: nat, dims: seq<nat>) returns (ccs: seq<nat>)
    requires dims != [] && AllPos(dims) && counter < Prod(dims)
    ensures ccs == Digits(counter, dims)
    ensures InShape(ccs, dims)
  {
    var totalSize := TotalSize(dims);
    DivModUnique(Prod(dims), dims[0], Prod(dims[1..]), 0);
    totalSize := totalSize / dims[0];

    ccs := seq(|dims|, _ => 0);
    var id: nat := counter;
    var i := 0;
    while i < |ccs| - 1
      invariant |ccs| == |dims| && 0 <= i < |dims|
      invariant totalSize == Prod(dims[i + 1..])
      invariant ccs[..i] + Digits(id, dims[i..]) == Digits(counter, dims)
    {
      DigitsStep(id, dims, i);
      var quot, rem := id / totalSize, id % totalSize;
      SetDigit(ccs, i, quot, Digits(rem, dims[i + 1..]));
      ccs := ccs[i := quot];
      totalSize := totalSize / dims[i + 1];
      id := rem;
      i := i + 1;
    }
    assert Digits(id, dims[i..]) == [id];
    SetDigit(ccs, i, id, []);
    ccs := ccs[i := id];
    assert ccs[..i + 1] == ccs;
    DigitsInShape(counter, dims);
  }

  /** getIdFromIndexes: elements to skip until `indexes`. */
  method GetIdFromIndexes(dims: seq<nat>, indexes: seq<nat>) returns (id: nat)
    requires |dims| == |indexes| && dims != []
    ensures id == Rank(dims, indexes)
  {
    id := indexes[|indexes| - 1];
    var accumulator: nat := 1;
    var i := |dims| - 1;
    RankLast(dims, indexes);
    while i > 0
      invariant 0 <= i < |dims|
      invariant accumulator == Prod(dims[i + 1..])
      invariant id == Rank(dims[i..], indexes[i..])
    {
      ProdSuffix(dims, i);
      accumulator := accumulator * dims[i];
      assert dims[i - 1..][1..] == dims[i..] && indexes[i - 1..][1..] == indexes[i..];
      id := id + accumulator * indexes[i - 1];
      i := i - 1;
    }
    assert dims[0..] == dims && indexes[0..] == indexes;
  }

  lemma RankLast(dims: seq<nat>, ix: seq<nat>)
    requires |dims| == |ix| && dims != []
    ensures Rank(dims[|dims| - 1..], ix[|dims| - 1..]) == ix[|dims| - 1]
  {
    var d, x := dims[|dims| - 1..], ix[|dims| - 1..];
    assert d[1..] == [] && x[1..] == [];
    assert Prod(d[1..]) == 1;
  }
}
