/** Slices of slices, one dimension at a time: what the composer makes of them, what
    numpy means by them, and exactly when the two agree. */
module Slices {
  import opened Arith
  import opened Collections

  /** One element of an index expression.  `Other` is anything but an int or a
      slice. */
  datatype Index =
    | At(i: int)
    | Slice(start: Option<int>, stop: Option<int>, step: Option<int>)
    | Other

  /** A slice without Nones. */
  datatype Range = Range(start: int, stop: int, step: int)

  datatype Outcome<+T> = Done(value: T) | TypeError | IndexError | NotImplementedError

  // ------------------------------------------------------------- the composer

  /** removenones: a missing or zero start is 0, a missing or zero step is 1, and
      a missing or zero stop is `maxstop`. */
  function RemoveNones(s: Index, maxstop: int): Range
    requires s.Slice?
  {
    Range(if s.start.None? then 0 else s.start.value,
          if s.stop.None? || s.stop.value == 0 then maxstop else s.stop.value,
          if s.step.None? || s.step.value == 0 then 1 else s.step.value)
  }

  /** _compose_index: a negative position counts from the stop. */
  function ComposeIndex(s: Range, pos: int): int {
    if pos < 0 then s.stop + pos * s.step else s.start + pos * s.step
  }

  function Min(a: int, b: int): int { if a < b then a else b }

  /** A slice of the slice `r`. */
  function Composed(n: int, r: Range, idx: Index): Index
    requires idx.Slice?
  {
    var w := RemoveNones(idx, n);
    Slice(Some(ComposeIndex(r, w.start)), Some(Min(ComposeIndex(r, w.stop), r.stop)), Some(r.step * w.step))
  }

  /** One dimension of view_composer_internal. */
  function ComposeDim(n: int, cur: Index, idx: Index): Outcome<Index>
    requires !cur.Other?
  {
    match idx
    case At(pos) => if cur.At? then Done(cur) else Done(At(ComposeIndex(RemoveNones(cur, n), pos)))
    case Slice(_, _, _) =>
      if cur.At? then Done(cur)
      else
        var o, w := RemoveNones(cur, n), RemoveNones(idx, n);
        if o.step >= 0 && w.step >= 0 then
          Done(Composed(n, o, idx))
        else
          NotImplementedError
    case Other => NotImplementedError
  }

  /** A step of 0 composes as no step, which numpy refuses. */
  lemma ZeroStep(n: int, cur: Index, start: Option<int>, stop: Option<int>)
    requires !cur.Other?
    ensures ComposeDim(n, cur, Slice(start, stop, Some(0))) == ComposeDim(n, cur, Slice(start, stop, None))
  {}

  // ------------------------------------------------------------ numpy meaning

  /** Number of steps from `a` that stay below `b`. */
  function Count(a: int, b: int, s: int): nat
    requires s >= 1
  {
    if a < b then Quot(b - a + s - 1, s) else 0
  }

  lemma CountIff(a: int, b: int, s: int, i: nat)
    requires s >= 1
    ensures i < Count(a, b, s) <==> a + i * s < b
  {
    MulNonNeg(i, s);
    if a < b {
      DivBelow(b - a + s - 1, s, i + 1);
      MulDist(i, 1, s);
    }
  }

  /** The positions a, a + s, a + 2s, ... below b. */
  function Elems(a: int, b: int, s: int): (ps: seq<int>)
    requires s >= 1
    ensures |ps| == Count(a, b, s) && forall i :: 0 <= i < |ps| ==> ps[i] == a + i * s
  {
    seq(Count(a, b, s), i requires 0 <= i < Count(a, b, s) => a + i * s)
  }

  function Clip(n: nat, x: int): (y: nat)
    ensures y <= n
  {
    if x < 0 then (if x + n < 0 then 0 else x + n) else Min(x, n)
  }

  predicate Forward(s: Index) {
    s.Slice? && (s.step.Some? ==> s.step.value >= 1)
  }

  /** Start, stop and step of a slice, as numpy reads them on `n` elements. */
  function Lo(n: nat, s: Index): nat
    requires s.Slice?
  {
    if s.start.None? then 0 else Clip(n, s.start.value)
  }

  function Hi(n: nat, s: Index): nat
    requires s.Slice?
  {
    if s.stop.None? then n else Clip(n, s.stop.value)
  }

  function Step(s: Index): int
    requires s.Slice?
  {
    if s.step.None? then 1 else s.step.value
  }

  /** The positions a slice selects along a dimension of `n` elements. */
  function Positions(n: nat, s: Index): (ps: seq<int>)
    requires s.Slice? && (s.step.Some? ==> s.step.value >= 1)
  {
    Elems(Lo(n, s), Hi(n, s), Step(s))
  }

  lemma PositionsInRange(n: nat, s: Index, i: nat)
    requires Forward(s) && i < |Positions(n, s)|
    ensures 0 <= Positions(n, s)[i] < n
  {
    CountIff(Lo(n, s), Hi(n, s), Step(s), i);
    MulNonNeg(i, Step(s));
  }

  /** What a view selects along one base dimension. */
  datatype Sel = One(p: int) | Many(ps: seq<int>)

  function Norm(n: nat, i: int): int { if i < 0 then i + n else i }

  function Denote(n: nat, ix: Index): Sel
    requires ix.At? || Forward(ix)
  {
    if ix.At? then One(Norm(n, ix.i)) else Many(Positions(n, ix))
  }

  /** Indexing an axis that shows the base positions `ps`. */
  function Pick(ps: seq<int>, ix: Index): Sel
    requires (ix.At? && -|ps| <= ix.i < |ps|) || Forward(ix)
  {
    if ix.At? then One(ps[Norm(|ps|, ix.i)])
    else
      var q := Positions(|ps|, ix);
      Many(seq(|q|, j requires 0 <= j < |q| => PositionsInRange(|ps|, ix, j); ps[q[j]]))
  }

  // -------------------------------------------------------------- one dimension

  /** An entry that the composer keeps for a base dimension of `n` elements. */
  ghost predicate Entry(n: nat, ix: Index) {
    || (ix.At? && 0 <= ix.i < n)
    || (Forward(ix) && n >= 1
        && (ix.start.Some? ==> ix.start.value >= 0) && (ix.stop.Some? ==> 1 <= ix.stop.value <= n))
  }

  lemma EntryPositions(n: nat, ix: Index)
    requires Entry(n, ix) && ix.Slice?
    ensures var r := RemoveNones(ix, n);
            r.start >= 0 && 1 <= r.stop <= n && r.step >= 1 && Positions(n, ix) == Elems(r.start, r.stop, r.step)
  {
    var r := RemoveNones(ix, n);
    if r.start > n {
      assert Elems(Lo(n, ix), r.stop, r.step) == [] == Elems(r.start, r.stop, r.step);
    }
  }

  /** The span of the slice is a whole number of steps. */
  ghost predicate Aligned(r: Range)
    requires r.step >= 1
  {
    r.stop - r.start == Count(r.start, r.stop, r.step) * r.step
  }

  predicate Below(i: nat, n: nat) { i < n }

  lemma SameCount(x: nat, y: nat)
    requires forall i: nat :: Below(i, x) <==> Below(i, y)
    ensures x == y
  {
    assert Below(x, x) <==> Below(x, y);
    assert Below(y, x) <==> Below(y, y);
  }

  lemma SliceAlgebra(a: int, s: int, ns: int, t: int, i: int)
    ensures a + ns * s + i * (s * t) == a + (ns + i * t) * s
  {
    MulDist(ns, i * t, s);
    assert i * (s * t) == (i * t) * s by { MulAssoc(i, t, s); MulComm(s, t); }
  }

  lemma MulMono(x: int, y: int, s: int)
    requires s >= 1
    ensures x * s < y * s <==> x < y
  {
    if x < y { MulLe(x + 1, y, s); MulDist(x, 1, s); } else { MulLe(y, x, s); }
  }

  /** Step `i` of the outer slice exists exactly when step `i` of the inner does. */
  lemma SliceStep(a: int, b: int, s: int, ns: nat, ne: nat, t: int, i: nat)
    requires s >= 1 && t >= 1 && s * t >= 1
    ensures i < Count(a + ns * s, Min(a + ne * s, b), s * t) <==>
            i < Count(Min(ns, Count(a, b, s)), Min(ne, Count(a, b, s)), t)
    ensures i < Count(Min(ns, Count(a, b, s)), Min(ne, Count(a, b, s)), t) ==>
              0 <= ns + i * t < Count(a, b, s) && ns < Count(a, b, s)
    ensures a + ns * s + i * (s * t) == a + (ns + i * t) * s
  {
    var n := Count(a, b, s);
    SliceAlgebra(a, s, ns, t, i);
    CountIff(a + ns * s, Min(a + ne * s, b), s * t, i);
    MulNonNeg(i, t);
    MulMono(ns + i * t, ne, s);
    CountIff(a, b, s, ns + i * t);
    CountIff(Min(ns, n), Min(ne, n), t, i);
  }

  /** A slice of a slice is a slice: position by position. */
  lemma SliceOfSlice(a: int, b: int, s: int, ns: nat, ne: nat, t: int)
    requires s >= 1 && t >= 1
    ensures s * t >= 1
    ensures var n := Count(a, b, s);
            var inner := Elems(Min(ns, n), Min(ne, n), t);
            var outer := Elems(a + ns * s, Min(a + ne * s, b), s * t);
            && |outer| == |inner|
            && forall i :: 0 <= i < |outer| ==> 0 <= inner[i] < n && outer[i] == a + inner[i] * s
  {
    MulPos(s, t);
    var n := Count(a, b, s);
    var inner, outer := Elems(Min(ns, n), Min(ne, n), t), Elems(a + ns * s, Min(a + ne * s, b), s * t);
    forall i: nat ensures Below(i, |outer|) <==> Below(i, |inner|) {
      SliceStep(a, b, s, ns, ne, t, i);
    }
    SameCount(|outer|, |inner|);
    forall i | 0 <= i < |outer|
      ensures 0 <= inner[i] < n && outer[i] == a + inner[i] * s
    {
      SliceStep(a, b, s, ns, ne, t, i);
      assert inner[i] == ns + i * t;
    }
  }

  lemma CountAtMost(a: int, b: int, s: int)
    requires s >= 1 && a >= 0
    ensures Count(a, b, s) <= (if b < 0 then 0 else b)
  {
    var n := Count(a, b, s);
    if n > 0 {
      CountIff(a, b, s, n - 1);
      MulLe(1, s, n - 1);
      MulComm(s, n - 1);
    }
  }

  // ------------------------------------------------ exactly when it is right

  /** The selected positions are a + first * s, ... and stay below the new stop. */
  lemma Spacing(a: int, b: int, s: int)
    requires s >= 1
    ensures var len := Count(a, b, s);
            && a + len * s >= b
            && (len > 0 ==> a + len * s - b < s)
            && (len == 0 <==> a >= b)
  {
    var len := Count(a, b, s);
    CountIff(a, b, s, len);
    if len > 0 {
      CountIff(a, b, s, len - 1);
      MulDist(len, -1, s);
    }
  }

  lemma ElemsEmpty(a: int, b: int, s: int)
    requires s >= 1
    ensures Elems(a, b, s) == [] <==> a >= b
    ensures a < b ==> Elems(a, b, s) != [] && Elems(a, b, s)[0] == a
  {
    CountIff(a, b, s, 0);
  }

  /** Numbers that step by a multiple of `s` do not see less than `s` of slack in
      their stop. */
  lemma CountSlack(x: int, m: int, e: int, s: int, t: int)
    requires s >= 1 && t >= 1 && s * t >= 1 && 0 <= e < s
    ensures Elems(x, x + m * s - e, s * t) == Elems(x, x + m * s, s * t)
  {
    var p, q := Elems(x, x + m * s - e, s * t), Elems(x, x + m * s, s * t);
    forall i: nat ensures Below(i, |p|) <==> Below(i, |q|) {
      CountIff(x, x + m * s - e, s * t, i);
      CountIff(x, x + m * s, s * t, i);
      MulComm(s, t);
      MulAssoc(i, t, s);
      SlackStep(i * t, m, e, s);
    }
    SameCount(|p|, |q|);
  }

  lemma SlackStep(k: int, m: int, e: int, s: int)
    requires 0 <= e < s
    ensures k * s < m * s - e <==> k * s < m * s
  {
    if k < m {
      MulLe(k + 1, m, s);
      MulDist(k, 1, s);
    } else {
      MulLe(m, k, s);
    }
  }

  /** What numpy selects, as positions of the base. */
  lemma PickElems(n: nat, cur: Index, idx: Index, r: Range)
    requires Entry(n, cur) && cur.Slice? && Forward(idx) && r == RemoveNones(cur, n) && r.step >= 1
    ensures var len := Count(r.start, r.stop, r.step);
            var first, last := Lo(len, idx), Hi(len, idx);
            && r.step * Step(idx) >= 1 && |Positions(n, cur)| == len
            && Pick(Positions(n, cur), idx)
               == Many(Elems(r.start + first * r.step, Min(r.start + last * r.step, r.stop), r.step * Step(idx)))
  {
    EntryPositions(n, cur);
    var len := Count(r.start, r.stop, r.step);
    SliceOfSlice(r.start, r.stop, r.step, Lo(len, idx), Hi(len, idx), Step(idx));
  }

  /** While numpy selects something, the stop of the composed slice cuts where the
      new stop cuts. */
  lemma StopKept(n: nat, r: Range, idx: Index)
    requires 0 <= r.start && 1 <= r.stop <= n && r.step >= 1 && Forward(idx) && r.step * Step(idx) >= 1
    requires var len := Count(r.start, r.stop, r.step); Lo(len, idx) < Hi(len, idx)
    ensures var len := Count(r.start, r.stop, r.step);
            var x := r.start + Lo(len, idx) * r.step;
            && 1 <= Hi(n, Composed(n, r, idx)) <= r.stop
            && Elems(x, Hi(n, Composed(n, r, idx)), r.step * Step(idx))
               == Elems(x, Min(r.start + Hi(len, idx) * r.step, r.stop), r.step * Step(idx))
  {
    var a, b, s, len := r.start, r.stop, r.step, Count(r.start, r.stop, r.step);
    var first, last := Lo(len, idx), Hi(len, idx);
    Spacing(a, b, s);
    CountAtMost(a, b, s);
    MulLe(1, last, s);
    if idx.stop.None? {
      MulLe(len, n, s);
    } else if idx.stop.value >= 0 {
      MulLe(last, idx.stop.value, s);
      if idx.stop.value > len { MulLe(len, idx.stop.value, s); }
    } else {
      StopBehind(a, b, s, len, first, last, idx.stop.value, Step(idx));
    }
  }

  /** A negative stop falls short of the stop counted from the front by less than one
      step. */
  lemma StopBehind(a: int, b: int, s: int, len: nat, first: int, last: int, v: int, t: int)
    requires s >= 1 && t >= 1 && s * t >= 1 && len == Count(a, b, s) && len > 0
    requires first < last && last == v + len && v < 0
    ensures a + last * s - s < b + v * s <= a + last * s <= b
    ensures Elems(a + first * s, b + v * s, s * t) == Elems(a + first * s, a + last * s, s * t)
  {
    Spacing(a, b, s);
    MulDist(len, v, s);
    MulLe(v, -1, s);
    MulDist(last - first, first, s);
    CountSlack(a + first * s, last - first, a + len * s - b, s, t);
  }

  /** The composed slice starts on the first selected element, or is empty when
      nothing is selected. */
  ghost predicate Lands(n: nat, r: Range, idx: Index)
    requires r.step >= 1 && idx.Slice?
  {
    var len, c := Count(r.start, r.stop, r.step), Composed(n, r, idx);
    if Lo(len, idx) < Hi(len, idx) then Lo(n, c) == r.start + Lo(len, idx) * r.step
    else Lo(n, c) >= Hi(n, c)
  }

  /** Slices of slices, all of them: the composed slice selects what numpy selects
      exactly when it lands. */
  lemma SliceExact(n: nat, cur: Index, idx: Index)
    requires Entry(n, cur) && cur.Slice? && Forward(idx)
    ensures var r := RemoveNones(cur, n);
            && r.step >= 1 && ComposeDim(n, cur, idx) == Done(Composed(n, r, idx)) && Forward(Composed(n, r, idx))
            && (Denote(n, Composed(n, r, idx)) == Pick(Positions(n, cur), idx) <==> Lands(n, r, idx))
  {
    EntryPositions(n, cur);
    var r := RemoveNones(cur, n);
    PickElems(n, cur, idx, r);
    var len, c, k := Count(r.start, r.stop, r.step), Composed(n, r, idx), r.step * Step(idx);
    var first, last := Lo(len, idx), Hi(len, idx);
    var x := r.start + first * r.step;
    assert Denote(n, c) == Many(Elems(Lo(n, c), Hi(n, c), k));
    ElemsEmpty(Lo(n, c), Hi(n, c), k);
    ElemsEmpty(x, Min(r.start + last * r.step, r.stop), k);
    if first < last {
      StopKept(n, r, idx);
      CountIff(r.start, r.stop, r.step, first);
      MulMono(first, last, r.step);
    } else {
      MulLe(last, first, r.step);
    }
  }

  /** A new index the composer gets right and turns into an entry again: an int
      counted from the front, or under an aligned slice; a slice that lands on
      non-negative bounds. */
  ghost predicate Composable(n: nat, r: Range, ix: Index)
    requires r.step >= 1
  {
    match ix
    case At(i) =>
      var len := Count(r.start, r.stop, r.step);
      0 <= i + len && i < len && (i < 0 ==> Aligned(r))
    case Slice(_, _, _) =>
      Forward(ix) && Lands(n, r, ix) && Composed(n, r, ix).start.value >= 0 && Composed(n, r, ix).stop.value >= 1
    case Other => false
  }

  /** Indices numpy accepts on an axis of `len` elements. */
  predicate Accepted(len: nat, ix: Index) {
    (ix.At? && 0 <= ix.i + len && ix.i < len) || Forward(ix)
  }

  /** Composition is composition exactly on composable indices: the composed entry
      selects what indexing the old selection selects, and is an entry again. */
  lemma ComposeDimMeaning(n: nat, cur: Index, idx: Index)
    requires Entry(n, cur) && cur.Slice? && Accepted(|Positions(n, cur)|, idx)
    ensures RemoveNones(cur, n).step >= 1 && ComposeDim(n, cur, idx).Done?
    ensures var c := ComposeDim(n, cur, idx).value;
            && (c.At? || Forward(c))
            && (Composable(n, RemoveNones(cur, n), idx) <==> Entry(n, c) && Denote(n, c) == Pick(Positions(n, cur),
                idx))
  {
    EntryPositions(n, cur);
    if idx.At? {
      ComposeAtMeaning(n, cur, idx);
    } else {
      SliceExact(n, cur, idx);
    }
  }

  lemma ComposeAtMeaning(n: nat, cur: Index, idx: Index)
    requires Entry(n, cur) && cur.Slice? && idx.At? && -|Positions(n, cur)| <= idx.i < |Positions(n, cur)|
    ensures var r := RemoveNones(cur, n);
            var c := At(ComposeIndex(r, idx.i));
            && r.step >= 1 && ComposeDim(n, cur, idx) == Done(c)
            && (Composable(n, r, idx) <==> Entry(n, c) && Denote(n, c) == Pick(Positions(n, cur), idx))
  {
    EntryPositions(n, cur);
    var r := RemoveNones(cur, n);
    var len := Count(r.start, r.stop, r.step);
    var k := Norm(len, idx.i);
    CountIff(r.start, r.stop, r.step, k);
    MulNonNeg(k, r.step);
    if idx.i < 0 { MulDist(len, idx.i, r.step); }
  }

  // ------------------------------------------------ the conditions, case by case

  /** A stop that leaves something of an axis of `len` elements. */
  ghost predicate Opens(len: nat, stop: Option<int>) {
    stop.None? || stop.value >= 1 || (stop.value < 0 && stop.value + len >= 1)
  }

  /** Slices with a start counted from the front and a stop that leaves something are
      right under every old slice, aligned or not. */
  lemma FrontStartRight(n: nat, cur: Index, idx: Index)
    requires Entry(n, cur) && cur.Slice? && Forward(idx) && RemoveNones(cur, n).step >= 1
    requires (idx.start.Some? ==> idx.start.value >= 0) && Opens(|Positions(n, cur)|, idx.stop)
    ensures Composable(n, RemoveNones(cur, n), idx)
  {
    EntryPositions(n, cur);
    var r := RemoveNones(cur, n);
    var ws := RemoveNones(idx, n).start;
    var a, b, s, len := r.start, r.stop, r.step, Count(r.start, r.stop, r.step);
    MulNonNeg(ws, s);
    Spacing(a, b, s);
    StopAhead(n, r, idx);
    if ws < len {
      CountIff(a, b, s, ws);
      if ws >= Hi(len, idx) { FrontEmpty(n, r, idx, ws); }
    } else {
      MulLe(len, ws, s);
    }
  }

  /** The stop of the composed slice stays positive. */
  lemma StopAhead(n: nat, r: Range, idx: Index)
    requires 0 <= r.start && 1 <= r.stop <= n && r.step >= 1 && idx.Slice?
    requires Opens(Count(r.start, r.stop, r.step), idx.stop)
    ensures 1 <= Composed(n, r, idx).stop.value <= r.stop
    ensures Hi(n, Composed(n, r, idx)) == Composed(n, r, idx).stop.value
  {
    var a, b, s, len := r.start, r.stop, r.step, Count(r.start, r.stop, r.step);
    Spacing(a, b, s);
    if idx.stop.None? {
      MulLe(1, n, s);
    } else if idx.stop.value >= 1 {
      MulLe(1, idx.stop.value, s);
    } else {
      MulDist(len, idx.stop.value, s);
      MulLe(1, len + idx.stop.value, s);
      MulLe(idx.stop.value, -1, s);
    }
  }

  /** A start from the front at or past the new stop composes to an empty slice. */
  lemma FrontEmpty(n: nat, r: Range, idx: Index, ws: nat)
    requires 0 <= r.start && 1 <= r.stop <= n && r.step >= 1 && idx.Slice? && ws == RemoveNones(idx, n).start
    requires ws >= Hi(Count(r.start, r.stop, r.step), idx) && ws < Count(r.start, r.stop, r.step)
    requires Opens(Count(r.start, r.stop, r.step), idx.stop)
    ensures r.start + ws * r.step >= Composed(n, r, idx).stop.value
  {
    var a, b, s, len := r.start, r.stop, r.step, Count(r.start, r.stop, r.step);
    Spacing(a, b, s);
    var v := idx.stop.value;
    if v >= 1 {
      MulLe(v, ws, s);
    } else {
      MulDist(len, v, s);
      MulLe(len + v, ws, s);
    }
  }

  /** A stop of 0 reads as no stop.  It is right exactly when the slice starts at or
      past the end, or when its negative start falls before the array without passing
      it by more than its length. */
  lemma ZeroStopExact(n: nat, cur: Index, idx: Index)
    requires Entry(n, cur) && cur.Slice? && Forward(idx) && idx.stop == Some(0)
    ensures var r := RemoveNones(cur, n);
            var start := if idx.start.None? then 0 else idx.start.value;
            && r.step >= 1 && ComposeDim(n, cur, idx) == Done(Composed(n, r, idx)) && Forward(Composed(n, r, idx))
            && (Denote(n, Composed(n, r, idx)) == Pick(Positions(n, cur), idx)
                <==> if start >= 0 then |Positions(n, cur)| <= start
                     else r.stop + start * r.step < 0 <= n + start * r.step)
  {
    SliceExact(n, cur, idx);
    EntryPositions(n, cur);
    var r := RemoveNones(cur, n);
    var a, b, s, len := r.start, r.stop, r.step, Count(r.start, r.stop, r.step);
    var start := if idx.start.None? then 0 else idx.start.value;
    Spacing(a, b, s);
    CountAtMost(a, b, s);
    MulLe(len, n, s);
    assert Hi(n, Composed(n, r, idx)) == b;
    if start >= 0 {
      CountIff(a, b, s, start);
      MulNonNeg(start, s);
    } else {
      MulLe(start, -1, s);
    }
  }

  /** A stop at or before the front of the old slice, which selects nothing: right
      exactly when the composed bounds, as numpy reads them, are empty too.  Under a
      start from the front that is when the new stop is not negative, or numpy brings it
      back no further than the start. */
  lemma FarStopExact(n: nat, cur: Index, idx: Index)
    requires Entry(n, cur) && cur.Slice? && Forward(idx)
    requires idx.stop.Some? && idx.stop.value < 0 && idx.stop.value + |Positions(n, cur)| <= 0
    ensures var r := RemoveNones(cur, n);
            var start := if idx.start.None? then 0 else idx.start.value;
            var stop := r.stop + idx.stop.value * r.step;
            && r.step >= 1 && ComposeDim(n, cur, idx) == Done(Composed(n, r, idx)) && Forward(Composed(n, r, idx))
            && (Denote(n, Composed(n, r, idx)) == Pick(Positions(n, cur), idx)
                <==> if start >= 0 then stop >= 0 || r.start + start * r.step >= stop + n
                     else Clip(n, r.stop + start * r.step) >= Clip(n, stop))
  {
    SliceExact(n, cur, idx);
    EntryPositions(n, cur);
    var r := RemoveNones(cur, n);
    var a, b, s, len := r.start, r.stop, r.step, Count(r.start, r.stop, r.step);
    var start := if idx.start.None? then 0 else idx.start.value;
    Spacing(a, b, s);
    MulLe(idx.stop.value, -1, s);
    assert Composed(n, r, idx).stop.value == b + idx.stop.value * s;
    if start >= 0 {
      MulNonNeg(start, s);
      MulDist(len, idx.stop.value, s);
      MulLe(len + idx.stop.value, 0, s);
    }
  }

  /** A negative start on an axis that shows nothing, with a stop that is missing or
      positive: right exactly when the composed start falls before the array, by a
      distance from the old stop of at most the length of the array. */
  lemma EmptyAxisExact(n: nat, cur: Index, idx: Index)
    requires Entry(n, cur) && cur.Slice? && Forward(idx) && Positions(n, cur) == []
    requires idx.start.Some? && idx.start.value < 0 && (idx.stop.None? || idx.stop.value >= 1)
    ensures var r := RemoveNones(cur, n);
            var back := idx.start.value * r.step;
            && r.step >= 1 && ComposeDim(n, cur, idx) == Done(Composed(n, r, idx)) && Forward(Composed(n, r, idx))
            && (Denote(n, Composed(n, r, idx)) == Pick(Positions(n, cur), idx) <==> r.stop + back < 0 <= n + back)
  {
    SliceExact(n, cur, idx);
    EntryPositions(n, cur);
    var r := RemoveNones(cur, n);
    var a, b, s := r.start, r.stop, r.step;
    CountIff(a, b, s, 0);
    MulLe(idx.start.value, -1, s);
    if idx.stop.Some? { MulLe(1, idx.stop.value, s); } else { MulLe(1, n, s); }
    assert Hi(n, Composed(n, r, idx)) == b;
  }

  /** A negative start in range, under steps no longer than the array: right exactly
      under an aligned slice, or when the new stop leaves nothing of it. */
  lemma NegativeStartExact(n: nat, cur: Index, idx: Index)
    requires Entry(n, cur) && cur.Slice? && Forward(idx) && 1 <= RemoveNones(cur, n).step <= n
    requires idx.start.Some? && idx.start.value < 0 <= idx.start.value + |Positions(n, cur)|
    requires Opens(|Positions(n, cur)|, idx.stop)
    ensures var r := RemoveNones(cur, n);
            && ComposeDim(n, cur, idx) == Done(Composed(n, r, idx)) && Forward(Composed(n, r, idx))
            && (Denote(n, Composed(n, r, idx)) == Pick(Positions(n, cur), idx)
                <==> Aligned(r) || (idx.stop.Some? && BehindStop(|Positions(n, cur)|, idx.start.value, idx.stop.value)))
  {
    SliceExact(n, cur, idx);
    EntryPositions(n, cur);
    var r := RemoveNones(cur, n);
    var len, st := Count(r.start, r.stop, r.step), idx.start.value;
    StopAhead(n, r, idx);
    StartBehind(n, r.start, r.stop, r.step, len, st);
    if st + len >= Hi(len, idx) { NegativeEmpty(n, r, idx, len, st); }
  }

  /** A negative start that leaves nothing before the stop.  Both count from the end,
      or the start lies past the stop. */
  predicate BehindStop(len: nat, start: int, stop: int) {
    if stop < 0 then start >= stop else start + len > stop
  }

  lemma StartBehind(n: nat, a: int, b: int, s: int, len: nat, st: int)
    requires 0 <= a && 1 <= b <= n && 1 <= s <= n && len == Count(a, b, s) && st < 0 <= st + len
    ensures b + st * s == a + (st + len) * s - (a + len * s - b)
    ensures 0 <= a + len * s - b < s
    ensures Clip(n, b + st * s) == a + (st + len) * s <==> b - a == len * s
  {
    Spacing(a, b, s);
    MulDist(len, st, s);
    MulLe(st, -1, s);
    MulNonNeg(st + len, s);
    if st + len >= 1 { MulLe(1, st + len, s); }
  }

  lemma NegativeEmpty(n: nat, r: Range, idx: Index, len: nat, st: int)
    requires 0 <= r.start && 1 <= r.stop <= n && 1 <= r.step <= n && Forward(idx)
        && len == Count(r.start, r.stop, r.step)
    requires idx.start == Some(st) && st < 0 <= st + len && Opens(len, idx.stop) && st + len >= Hi(len, idx)
    ensures Lands(n, r, idx) <==> Aligned(r) || (idx.stop.Some? && BehindStop(len, st, idx.stop.value))
  {
    var a, b, s, v := r.start, r.stop, r.step, idx.stop.value;
    StopAhead(n, r, idx);
    StartBehind(n, a, b, s, len, st);
    MulLe(1, st + len, s);
    MulLe(st, -1, s);
    if v < 0 {
      MulLe(v, st, s);
    } else {
      CountIff(a, b, s, v);
      PastStop(st + len, v, a + len * s - b, s);
    }
  }

  lemma PastStop(k: int, v: int, e: int, s: int)
    requires 0 <= e < s && k >= v
    ensures k * s - e >= v * s <==> k > v || e == 0
  {
    if k > v {
      MulLe(v + 1, k, s);
      MulDist(v, 1, s);
    }
  }

  /** A start before the front of the old slice: right exactly when what numpy makes of
      the composed start is the front. */
  lemma FarStartExact(n: nat, cur: Index, idx: Index)
    requires Entry(n, cur) && cur.Slice? && Forward(idx) && Positions(n, cur) != []
    requires idx.start.Some? && idx.start.value + |Positions(n, cur)| < 0 && Opens(|Positions(n, cur)|, idx.stop)
    ensures var r := RemoveNones(cur, n);
            var start := r.stop + idx.start.value * r.step + n;
            && r.step >= 1 && ComposeDim(n, cur, idx) == Done(Composed(n, r, idx)) && Forward(Composed(n, r, idx))
            && (Denote(n, Composed(n, r, idx)) == Pick(Positions(n, cur), idx)
                <==> start == r.start || (r.start == 0 && start <= 0))
  {
    SliceExact(n, cur, idx);
    EntryPositions(n, cur);
    var r := RemoveNones(cur, n);
    var len := Count(r.start, r.stop, r.step);
    StopAhead(n, r, idx);
    FarStart(n, r.start, r.stop, r.step, len, idx.start.value);
  }

  lemma FarStart(n: nat, a: int, b: int, s: int, len: int, st: int)
    requires 0 <= a < b <= n && s >= 1 && len == Count(a, b, s) && st + len < 0
    ensures Clip(n, b + st * s) == a <==> b + st * s + n == a || (a == 0 && b + st * s + n <= 0)
  {
    Spacing(a, b, s);
    MulLe(st, -len - 1, s);
    MulDist(-len, -1, s);
    MulDist(len, -len, s);
    assert b + st * s < a;
  }

  /** A negative start under a step longer than the array, where at most one element is
      left: right exactly when numpy brings the composed start back to it. */
  lemma LongStepExact(n: nat, cur: Index, idx: Index)
    requires Entry(n, cur) && cur.Slice? && Forward(idx) && RemoveNones(cur, n).step > n
    requires idx.start.Some? && idx.start.value < 0 <= idx.start.value + |Positions(n, cur)|
    requires Opens(|Positions(n, cur)|, idx.stop)
    ensures var r := RemoveNones(cur, n);
            && ComposeDim(n, cur, idx) == Done(Composed(n, r, idx)) && Forward(Composed(n, r, idx))
            && (Denote(n, Composed(n, r, idx)) == Pick(Positions(n, cur), idx)
                <==> r.start == if r.stop + n < r.step then 0 else r.stop + n - r.step)
  {
    SliceExact(n, cur, idx);
    EntryPositions(n, cur);
    var r := RemoveNones(cur, n);
    LongStep(n, r.start, r.stop, r.step);
    assert idx.start.value == -1 && Lo(1, idx) == 0 && Hi(1, idx) == 1;
    assert Composed(n, r, idx).start == Some(r.stop - r.step);
  }

  lemma LongStep(n: nat, a: int, b: int, s: int)
    requires 0 <= a && 1 <= b <= n < s
    ensures Count(a, b, s) == if a < b then 1 else 0
  {
    CountIff(a, b, s, 0);
    CountIff(a, b, s, 1);
  }

  /** On a whole axis: a start or stop before the front is right exactly when it lies
      at least twice the length before the end. */
  lemma WholeAxisFar(n: nat, x: int)
    requires n >= 1 && x + n < 0
    ensures var cur, start, stop := Slice(None, None, None), Slice(Some(x), None, None), Slice(None, Some(x), None);
            && (Denote(n, ComposeDim(n, cur, start).value) == Pick(Positions(n, cur), start) <==> x <= -2 * n)
            && (Denote(n, ComposeDim(n, cur, stop).value) == Pick(Positions(n, cur), stop) <==> x <= -2 * n)
  {
    var cur := Slice(None, None, None);
    EntryPositions(n, cur);
    CountIff(0, n, 1, n - 1);
    CountAtMost(0, n, 1);
    FarStartExact(n, cur, Slice(Some(x), None, None));
    FarStopExact(n, cur, Slice(None, Some(x), None));
  }

  /** A negative int is right exactly when the old span is a whole number of
      steps. */
  lemma NegativeIntExact(n: nat, cur: Index, i: int)
    requires Entry(n, cur) && cur.Slice? && -|Positions(n, cur)| <= i < 0
    ensures RemoveNones(cur, n).step >= 1
    ensures ComposeDim(n, cur, At(i)).value.i == Pick(Positions(n, cur), At(i)).p <==> Aligned(RemoveNones(cur, n))
  {
    EntryPositions(n, cur);
    var r := RemoveNones(cur, n);
    MulDist(Count(r.start, r.stop, r.step), i, r.step);
  }

  // ----------------------------------------------------------------- inputs

  lemma Ranges()
    ensures Elems(0, 5, 1) == [0, 1, 2, 3, 4] && Elems(0, 3, 1) == [0, 1, 2] && Elems(0, 5, 2) == [0, 2, 4]
    ensures Elems(3, 5, 2) == [3] && Elems(0, 3, 2) == [0, 2]
        && Elems(3, 1, 2) == Elems(3, 3, 1) == Elems(0, 0, 1) == []
  {}

  /** x[0:0] of five elements shows all five. */
  lemma ZeroStopWrong()
    ensures var cur := Slice(None, None, None);
            var idx := Slice(Some(0), Some(0), None);
            && Denote(5, ComposeDim(5, cur, idx).value) == Many([0, 1, 2, 3, 4])
            && Pick(Positions(5, cur), idx) == Many([])
  {
    Ranges();
  }

  /** x[0:5:2][-1] shows element 3; numpy shows element 4. */
  lemma NegativeIntWrong()
    ensures var cur := Slice(Some(0), Some(5), Some(2));
            ComposeDim(5, cur, At(-1)) == Done(At(3)) && Pick(Positions(5, cur), At(-1)) == One(4)
  {
    Ranges();
  }

  /** x[0:5:2][-1:] shows element 3; numpy shows element 4. */
  lemma NegativeStartWrong()
    ensures var cur, idx := Slice(Some(0), Some(5), Some(2)), Slice(Some(-1), None, None);
            && Denote(5, ComposeDim(5, cur, idx).value) == Many([3])
            && Pick(Positions(5, cur), idx) == Many([4])
  {
    Ranges();
    assert Positions(3, Slice(Some(-1), None, None)) == [2];
  }

  /** x[-7:3] of five elements shows nothing; numpy shows the first three. */
  lemma FarStartWrong()
    ensures var cur, idx := Slice(None, None, None), Slice(Some(-7), Some(3), None);
            && Denote(5, ComposeDim(5, cur, idx).value) == Many([])
            && Pick(Positions(5, cur), idx) == Many([0, 1, 2])
  {
    Ranges();
  }

  /** x[:-7] of five elements shows the first three; numpy shows nothing. */
  lemma FarStopWrong()
    ensures var cur, idx := Slice(None, None, None), Slice(None, Some(-7), None);
            && Denote(5, ComposeDim(5, cur, idx).value) == Many([0, 1, 2])
            && Pick(Positions(5, cur), idx) == Many([])
  {
    Ranges();
  }
}
