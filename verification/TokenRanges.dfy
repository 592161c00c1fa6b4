/** Token ranges of the ring, and their subdivision into groups per node. */
module TokenRanges {
  import opened Arith
  import opened Collections

  type Span = (int, int) // from inclusive, to exclusive
  type Host = nat

  const MIN_TOKEN: int := -0x8000_0000_0000_0000
  const MAX_TOKEN: int := 0x7fff_ffff_ffff_ffff

  // ----------------------------------------------------------------- counting

  predicate Holds(r: Span, t: int) {
    r.0 <= t < r.1
  }

  /** How many of the ranges hold a token. */
  function Count(rs: seq<Span>, t: int): nat {
    if rs == [] then 0 else (if Holds(rs[0], t) then 1 else 0) + Count(rs[1..], t)
  }

  lemma {:induction false} CountConcat(a: seq<Span>, b: seq<Span>, t: int)
    ensures Count(a + b, t) == Count(a, t) + Count(b, t)
  {
    if a == [] {
      assert a + b == b;
    } else {
      CountConcat(a[1..], b, t);
      assert (a + b)[1..] == a[1..] + b;
    }
  }

  // ------------------------------------------------------------------ sorting

  ghost predicate Sorted(s: seq<int>) {
    forall i, j :: 0 <= i < j < |s| ==> s[i] <= s[j]
  }

  predicate IsToken(t: int) {
    MIN_TOKEN <= t <= MAX_TOKEN
  }

  /** The index of the first element greater than `x`: bisect_right on a sorted list. */
  function FirstAbove(s: seq<int>, x: int): (p: nat)
    ensures p <= |s| && (p < |s| ==> x < s[p]) && forall i :: 0 <= i < p ==> s[i] <= x
  {
    if s == [] || x < s[0] then 0
    else
      var p := FirstAbove(s[1..], x);
      assert forall i :: 0 <= i < p ==> s[i + 1] == s[1..][i];
      p + 1
  }

  lemma {:induction false} FirstAboveIs(s: seq<int>, x: int, p: nat)
    requires p <= |s| && (p < |s| ==> x < s[p]) && forall i :: 0 <= i < p ==> s[i] <= x
    ensures FirstAbove(s, x) == p
  {
    if p == 0 {
    } else {
      FirstAboveIs(s[1..], x, p - 1);
    }
  }

  /** Placing an element before the first greater one keeps a list sorted. */
  lemma InsertSorted(s: seq<int>, x: int, p: nat)
    requires Sorted(s) && p <= |s| && (p < |s| ==> x < s[p]) && forall i :: 0 <= i < p ==> s[i] <= x
    ensures Sorted(s[..p] + [x] + s[p..])
  {
    var r := s[..p] + [x] + s[p..];
    forall i, j | 0 <= i < j < |r| ensures r[i] <= r[j] {
      assert i > p ==> r[i] == s[i - 1];
      assert j > p ==> r[j] == s[j - 1];
    }
  }

  /** list.sort on tokens. */
  function SortTokens(s: seq<int>): (r: seq<int>)
    ensures Sorted(r) && multiset(r) == multiset(s) && |r| == |s|
  {
    if s == [] then []
    else
      assert s == [s[0]] + s[1..];
      var rest := SortTokens(s[1..]);
      var p := FirstAbove(rest, s[0]);
      InsertSorted(rest, s[0], p);
      InsertKeeps(rest, s[0], p);
      rest[..p] + [s[0]] + rest[p..]
  }

  lemma SortKeepsTokens(s: seq<int>, t: int)
    ensures t in SortTokens(s) <==> t in s
  {
    assert t in multiset(SortTokens(s)) <==> t in multiset(s);
  }

  // --------------------------------------------------------- ranges of a ring

  /** The ranges between consecutive bounds. */
  function Links(bounds: seq<int>): (rs: seq<Span>)
    requires bounds != []
  {
    seq(|bounds| - 1, i requires 0 <= i < |bounds| - 1 => (bounds[i], bounds[i + 1]))
  }

  /** Ranges between sorted bounds hold every token between the first and the last
      bound exactly once, and no other. */
  lemma {:induction false} LinksExact(bounds: seq<int>, t: int)
    requires bounds != [] && Sorted(bounds)
    ensures Count(Links(bounds), t) == if bounds[0] <= t < bounds[|bounds| - 1] then 1 else 0
  {
    if |bounds| <= 1 {
    } else {
      LinksExact(bounds[1..], t);
      assert Links(bounds)[1..] == Links(bounds[1..]);
    }
  }

  /** The bounds discrete_token_ranges walks through. */
  function Bounds(sorted: seq<int>): seq<int>
    requires sorted != []
  {
    Low(sorted) + sorted + [MAX_TOKEN]
  }

  lemma BoundsSorted(sorted: seq<int>)
    requires sorted != [] && Sorted(sorted) && forall t :: t in sorted ==> IsToken(t)
    ensures var b := Bounds(sorted);
            Sorted(b) && b != [] && b[0] == MIN_TOKEN && b[|b| - 1] == MAX_TOKEN
  {
    assert sorted[0] in sorted && IsToken(sorted[0]);
    var b := Bounds(sorted);
    var k := if sorted[0] > MIN_TOKEN then 1 else 0;
    forall i, j | 0 <= i < j < |b| ensures b[i] <= b[j] {
      if j < |b| - 1 { assert b[j] == sorted[j - k] && sorted[j - k] in sorted; }
      if i >= k { assert b[i] == sorted[i - k] && sorted[i - k] in sorted; }
    }
  }

  /** The ranges hold every token from `lo` up to `hi` exactly once, and no other. */
  ghost predicate Exactly(rs: seq<Span>, lo: int, hi: int) {
    forall t :: Count(rs, t) == if lo <= t < hi then 1 else 0
  }

  ghost predicate AllTokens(tokens: seq<int>) {
    forall t :: t in tokens ==> IsToken(t)
  }

  /** The ranges of a ring hold every token from the least up to the greatest
      exactly once. */
  lemma RingExact(tokens: seq<int>)
    requires tokens != [] && AllTokens(tokens)
    ensures Exactly(Links(Bounds(SortTokens(tokens))), MIN_TOKEN, MAX_TOKEN)
  {
    var sorted := SortTokens(tokens);
    forall t | t in sorted ensures IsToken(t) { SortKeepsTokens(tokens, t); }
    BoundsSorted(sorted);
    forall t ensures Count(Links(Bounds(sorted)), t) == if MIN_TOKEN <= t < MAX_TOKEN then 1 else 0 {
      LinksExact(Bounds(sorted), t);
    }
  }

  lemma LinksSnoc(bounds: seq<int>, x: int)
    requires bounds != []
    ensures Links(bounds + [x]) == Links(bounds) + [(bounds[|bounds| - 1], x)]
  {}

  /** The loop of discrete_token_ranges over sorted tokens. */
  method LinkTokens(tokens: seq<int>) returns (tokenRanges: seq<Span>)
    requires tokens != []
    ensures tokenRanges == Links(Bounds(tokens))
  {
    FirstLink(tokens);
    if tokens[0] > MIN_TOKEN {
      tokenRanges := [(MIN_TOKEN, tokens[0])];
    } else {
      tokenRanges := [];
    }
    var n := |tokens|;
    for i := 0 to n - 1
      invariant tokenRanges == Links(Low(tokens) + tokens[..i + 1])
    {
      NextLink(tokens, i + 1);
      tokenRanges := tokenRanges + [(tokens[i], tokens[i + 1])];
    }
    LinksSnoc(Low(tokens) + tokens, MAX_TOKEN);
    assert tokens[..n] == tokens;
    tokenRanges := tokenRanges + [(tokens[n - 1], MAX_TOKEN)];
  }

  /** discrete_token_ranges: any list of tokens, in any order and with repeats, gives
      ranges that partition the ring; the empty list gives no range.  `sorted` is
      what the call leaves in its argument. */
  method DiscreteTokenRanges(tokens: seq<int>) returns (sorted: seq<int>, tokenRanges: seq<Span>)
    ensures Sorted(sorted) && multiset(sorted) == multiset(tokens)
    ensures tokens == [] ==> tokenRanges == []
    ensures tokens != [] ==> sorted != [] && tokenRanges == Links(Bounds(sorted))
    ensures tokens != [] && AllTokens(tokens) ==> Exactly(tokenRanges, MIN_TOKEN, MAX_TOKEN)
  {
    sorted := SortTokens(tokens);
    if |sorted| == 0 {
      return sorted, [];
    }
    tokenRanges := LinkTokens(sorted);
    if AllTokens(tokens) {
      RingExact(tokens);
    }
  }

  // ------------------------------------------------------------ cutting ranges

  /** A range cut into steps of at most `step` tokens. */
  function Pieces(r: Span, step: int): (ps: seq<Span>)
    requires step >= 1
    decreases r.1 - r.0
  {
    if r.0 < r.1 - step then [(r.0, r.0 + step)] + Pieces((r.0 + step, r.1), step) else [r]
  }

  function AllPieces(rs: seq<Span>, step: int): seq<Span>
    requires step >= 1
  {
    if rs == [] then [] else Pieces(rs[0], step) + AllPieces(rs[1..], step)
  }

  /** The pieces of a range are no wider than the step and hold its tokens, each in
      one piece. */
  lemma {:induction false} PiecesExact(r: Span, step: int, t: int)
    requires step >= 1
    ensures Count(Pieces(r, step), t) == if Holds(r, t) then 1 else 0
    ensures forall p :: p in Pieces(r, step) ==> p.1 - p.0 <= step && (Holds(p, t) ==> Holds(r, t))
    decreases r.1 - r.0
  {
    if r.0 >= r.1 - step {
    } else {
      var rest: Span := (r.0 + step, r.1);
      PiecesExact(rest, step, t);
      CountConcat([(r.0, r.0 + step)], Pieces(rest, step), t);
    }
  }

  /** The pieces of a range one by one: steps from its start, and what is left at the end. */
  lemma {:induction false} PieceAt(r: Span, step: int, k: nat)
    requires step >= 1 && k < |Pieces(r, step)|
    ensures var n := |Pieces(r, step)|;
            && Pieces(r, step)[k] == (r.0 + k * step, if k + 1 < n then r.0 + (k + 1) * step else r.1)
            && (k + 1 < n ==> r.0 + (k + 1) * step < r.1) && (k + 1 == n ==> r.1 - (r.0 + k * step) <= step)
    decreases k
  {
    if r.0 < r.1 - step {
      var rest: Span := (r.0 + step, r.1);
      assert Pieces(r, step) == [(r.0, r.0 + step)] + Pieces(rest, step) && |Pieces(rest, step)| >= 1;
      if k > 0 {
        PieceAt(rest, step, k - 1);
        MulDist(k - 1, 1, step);
        MulDist(k, 1, step);
      }
    }
  }

  /** No piece is wider than the step, and only the last of a range is narrower. */
  ghost predicate RightWidth(p: Span, rs: seq<Span>, step: int) {
    p.1 - p.0 <= step && (p.1 - p.0 == step || exists i :: 0 <= i < |rs| && p.1 == rs[i].1)
  }

  lemma {:induction false} AllPiecesWidths(rs: seq<Span>, step: int, p: Span)
    requires step >= 1 && p in AllPieces(rs, step)
    ensures RightWidth(p, rs, step)
  {
    if rs == [] {
    } else if p in Pieces(rs[0], step) {
      var k :| 0 <= k < |Pieces(rs[0], step)| && Pieces(rs[0], step)[k] == p;
      PieceAt(rs[0], step, k);
      MulDist(k, 1, step);
    } else {
      AllPiecesWidths(rs[1..], step, p);
      if i :| 0 <= i < |rs[1..]| && p.1 == rs[1..][i].1 { assert p.1 == rs[i + 1].1; }
    }
  }

  lemma {:induction false} AllPiecesExact(rs: seq<Span>, step: int, t: int)
    requires step >= 1
    ensures Count(AllPieces(rs, step), t) == Count(rs, t)
    ensures forall p :: p in AllPieces(rs, step) ==> p.1 - p.0 <= step
    ensures forall p :: p in AllPieces(rs, step) && Holds(p, t) ==> exists i :: 0 <= i < |rs| && Holds(rs[i], t)
  {
    if rs == [] {
    } else {
      PiecesExact(rs[0], step, t);
      AllPiecesExact(rs[1..], step, t);
      CountConcat(Pieces(rs[0], step), AllPieces(rs[1..], step), t);
      forall p | p in AllPieces(rs, step) && Holds(p, t) ensures exists i :: 0 <= i < |rs| && Holds(rs[i], t) {
        if p in Pieces(rs[0], step) {
          assert Holds(rs[0], t);
        } else {
          var i :| 0 <= i < |rs[1..]| && Holds(rs[1..][i], t);
          assert Holds(rs[i + 1], t);
        }
      }
    }
  }

  lemma ConcatAssoc<T>(a: seq<T>, b: seq<T>, c: seq<T>)
    ensures a + (b + c) == a + b + c
  {}

  /** The while loop over one range. */
  method CutRange(r: Span, step: int) returns (pieces: seq<Span>)
    requires step >= 1
    ensures pieces == Pieces(r, step)
  {
    var (fraction, to) := r;
    pieces := [];
    while fraction < to - step
      invariant pieces + Pieces((fraction, to), step) == Pieces(r, step)
    {
      ConcatAssoc(pieces, [(fraction, fraction + step)], Pieces((fraction + step, to), step));
      pieces := pieces + [(fraction, fraction + step)];
      fraction := fraction + step;
    }
    pieces := pieces + [(fraction, to)];
  }

  /** The subdivision loop. */
  method CutRanges(tokensInNode: seq<Span>, step: int) returns (partition: seq<Span>)
    requires step >= 1
    ensures partition == AllPieces(tokensInNode, step)
  {
    partition := [];
    for i := 0 to |tokensInNode|
      invariant partition + AllPieces(tokensInNode[i..], step) == AllPieces(tokensInNode, step)
    {
      var pieces := CutRange(tokensInNode[i], step);
      assert tokensInNode[i..][1..] == tokensInNode[i + 1..];
      ConcatAssoc(partition, pieces, AllPieces(tokensInNode[i + 1..], step));
      partition := partition + pieces;
    }
  }

  // ------------------------------------------------------------------ grouping

  function Chunks<T>(s: seq<T>, g: int): (cs: seq<seq<T>>)
    requires g >= 1
    decreases |s|
  {
    if s == [] then [] else if |s| <= g then [s] else [s[..g]] + Chunks(s[g..], g)
  }

  function Flat<T>(ss: seq<seq<T>>): seq<T> {
    if ss == [] then [] else ss[0] + Flat(ss[1..])
  }

  lemma {:induction false} FlatConcat<T>(a: seq<seq<T>>, b: seq<seq<T>>)
    ensures Flat(a + b) == Flat(a) + Flat(b)
  {
    if a == [] {
      assert a + b == b;
    } else {
      FlatConcat(a[1..], b);
      assert (a + b)[1..] == a[1..] + b;
      assert Flat(a + b) == a[0] + (Flat(a[1..]) + Flat(b));
    }
  }

  /** Chunks lose nothing and repeat nothing. */
  lemma {:induction false} ChunksFlat<T>(s: seq<T>, g: int)
    requires g >= 1
    ensures Flat(Chunks(s, g)) == s
    decreases |s|
  {
    if |s| > g {
      ChunksFlat(s[g..], g);
      assert s == s[..g] + s[g..];
    } else if s != [] {
      assert Chunks(s, g)[1..] == [];
    }
  }

  lemma {:induction false} ChunksFull<T>(s: seq<T>, g: int, c: seq<T>)
    requires g >= 1 && c in Chunks(s, g)
    ensures c != [] && |c| <= g && forall x :: x in c ==> x in s
    decreases |s|
  {
    if |s| > g && c != s[..g] {
      ChunksFull(s[g..], g, c);
    }
  }

  lemma {:induction false} ChunksNumber<T>(s: seq<T>, g: int)
    requires g >= 1 && s != []
    ensures (|Chunks(s, g)| - 1) * g < |s| <= |Chunks(s, g)| * g && (g == 1 ==> |Chunks(s, g)| == |s|)
    decreases |s|
  {
    if |s| <= g {
    } else {
      ChunksNumber(s[g..], g);
      MulDist(|Chunks(s[g..], g)| - 1, 1, g);
    }
  }

  /** Chunk by chunk: all but the last have `g` elements, in the order of the sequence. */
  lemma {:induction false} ChunkAt<T>(s: seq<T>, g: int, k: nat)
    requires g >= 1 && k < |Chunks(s, g)|
    ensures 0 <= k * g < |s| && Chunks(s, g)[k] == s[k * g..Clip((k + 1) * g, |s|)]
    ensures k + 1 < |Chunks(s, g)| ==> |Chunks(s, g)[k]| == g
    decreases k
  {
    MulDist(k, 1, g);
    if k > 0 {
      ChunkAt(s[g..], g, k - 1);
      MulDist(k - 1, 1, g);
      MulNonNeg(k - 1, g);
      var a, b := (k - 1) * g, Clip(k * g, |s[g..]|);
      assert k * g == g + a && Clip((k + 1) * g, |s|) == g + b;
      SliceOfRest(s, g, a, b);
    }
  }

  lemma SliceOfRest<T>(s: seq<T>, g: nat, a: nat, b: nat)
    requires g <= |s| && a <= b <= |s| - g
    ensures s[g..][a..b] == s[g + a..g + b]
  {}

  function GroupSize(n: nat, splits: int): (g: int)
    requires splits >= 1
    ensures g >= 1
  {
    if Quot(n, splits) > 1 then Quot(n, splits) else 1
  }

  /** A node yields at most 2 * splits - 1 groups: one a piece when there are no more than
      `splits` pieces, and at least `splits` otherwise. */
  lemma FewGroups<T>(s: seq<T>, splits: int)
    requires splits >= 1
    ensures |Chunks(s, GroupSize(|s|, splits))| <= 2 * splits - 1
    ensures |s| <= splits ==> |Chunks(s, GroupSize(|s|, splits))| == |s|
    ensures |s| >= splits ==> |Chunks(s, GroupSize(|s|, splits))| >= splits
  {
    var n, g := |s|, GroupSize(|s|, splits);
    if s != [] {
      ChunksNumber(s, g);
      DivSplit(n, splits);
      var q := Quot(n, splits);
      GroupBound(q, splits, n - splits * q, |Chunks(s, g)|, g);
      GroupLeast(q, splits, n - splits * q, |Chunks(s, g)|, g);
    }
  }

  lemma GroupLeast(q: int, k: int, r: int, m: int, g: int)
    requires q >= 0 && k >= 1 && 0 <= r < k && k * q + r <= m * g && g == (if q > 1 then q else 1)
    ensures k * q + r <= k ==> g == 1
    ensures k * q + r >= k ==> m >= k
  {
    if q > 1 {
      MulLe(2, q, k);
      if m < k { MulLe(m + 1, k, q); MulDist(m, 1, q); }
    } else {
      MulComm(k, q);
      if q == 0 { MulLe(q, 0, k); } else { MulLe(1, q, k); }
    }
  }

  /** The bound on the groups of a node is met. */
  lemma FewGroupsTight<T>(s: seq<T>, splits: int)
    requires splits >= 1 && |s| == 2 * splits - 1
    ensures |Chunks(s, GroupSize(|s|, splits))| == 2 * splits - 1
  {
    DivBelow(|s|, splits, 2);
    ChunksNumber(s, 1);
  }

  lemma GroupBound(q: int, k: int, r: int, m: int, g: int)
    requires q >= 0 && k >= 1 && 0 <= r < k && (m - 1) * g < k * q + r && g == (if q > 1 then q else 1)
    ensures m <= 2 * k - 1
  {
    if q >= 1 && m >= 2 * k {
      MulLe(2 * k - 1, m - 1, q);
      MulDist(k, k - 1, q);
      MulLe(1, q, k - 1);
    }
  }

  function Clip(i: nat, n: nat): (r: nat)
    ensures r <= i && r <= n
  {
    if i <= n then i else n
  }

  lemma ChunkStep<T>(s: seq<T>, i: nat, g: int)
    requires g >= 1 && i < |s|
    ensures Chunks(s[i..], g) == [s[i..Clip(i + g, |s|)]] + Chunks(s[Clip(i + g, |s|)..], g)
  {
    var end := Clip(i + g, |s|);
    var t := s[i..];
    if |t| <= g {
      assert t == s[i..end] && s[end..] == [];
    } else {
      assert t[..g] == s[i..end] && t[g..] == s[end..];
    }
  }

  /** The yield loop over one node. */
  method Regroup(partition: seq<Span>, splits: int) returns (groups: seq<seq<Span>>)
    requires splits >= 1
    ensures groups == Chunks(partition, GroupSize(|partition|, splits))
  {
    var groupSize := GroupSize(|partition|, splits);
    var i: nat := 0;
    groups := [];
    while i < |partition|
      invariant groups + Chunks(partition[Clip(i, |partition|)..], groupSize) == Chunks(partition, groupSize)
    {
      ChunkStep(partition, i, groupSize);
      ConcatAssoc(groups, [partition[i..Clip(i + groupSize, |partition|)]],
                  Chunks(partition[Clip(i + groupSize, |partition|)..], groupSize));
      groups := groups + [partition[i..Clip(i + groupSize, |partition|)]];
      i := i + groupSize;
    }
  }

  // ----------------------------------------------------------------- the nodes

  /** The cluster: the sorted tokens of the ring, and the first replica of each. */
  datatype Cluster = Cluster(ring: seq<int>, hosts: map<int, Host>) {
    ghost predicate Valid() {
      Sorted(ring) && forall t :: t in ring ==> t in hosts
    }

    /** The node of a token: the owner of the next ring token, around the ring. */
    function Owner(t: int): Host
      requires Valid() && ring != []
    {
      var point := FirstAbove(ring, t);
      if point == |ring| then hosts[ring[0]] else hosts[ring[point]]
    }
  }

  /** The owner of a token is the host of the next ring token after it, or of the first
      one of the ring when none follows. */
  lemma OwnerExact(c: Cluster, t: int, x: int)
    requires c.Valid() && x in c.ring
    requires (forall y :: y in c.ring && y > t ==> x <= y) && (x <= t ==> forall y :: y in c.ring ==> x <= y <= t)
    ensures c.Owner(t) == c.hosts[x]
  {
    var p := FirstAbove(c.ring, t);
    var i :| 0 <= i < |c.ring| && c.ring[i] == x;
    if p < |c.ring| {
      assert c.ring[p] in c.ring;
      assert x > t ==> i >= p;
    } else {
      assert c.ring[0] in c.ring;
    }
  }

  /** The ranges that start at a token of `node`, in order. */
  function OfNode(c: Cluster, rs: seq<Span>, node: Host): seq<Span>
    requires c.Valid() && c.ring != []
  {
    if rs == [] then []
    else
      var last := rs[|rs| - 1];
      OfNode(c, rs[..|rs| - 1], node) + if c.Owner(last.0) == node then [last] else []
  }

  ghost predicate OwnersIn(c: Cluster, rs: seq<Span>, nodes: seq<Host>)
    requires c.Valid() && c.ring != []
  {
    forall i :: 0 <= i < |rs| ==> c.Owner(rs[i].0) in nodes
  }

  /** The nodes of the ranges, in order of first appearance. */
  function Nodes(c: Cluster, rs: seq<Span>): (ns: seq<Host>)
    requires c.Valid() && c.ring != []
    ensures Distinct(ns)
    ensures rs != [] ==> ns != []
  {
    if rs == [] then []
    else
      var before, node := Nodes(c, rs[..|rs| - 1]), c.Owner(rs[|rs| - 1].0);
      if node in before then before else before + [node]
  }

  /** Range `k` is the first of its node. */
  ghost predicate FirstUse(c: Cluster, rs: seq<Span>, node: Host, k: nat)
    requires c.Valid() && c.ring != []
  {
    k < |rs| && c.Owner(rs[k].0) == node && forall m :: 0 <= m < k ==> c.Owner(rs[m].0) != node
  }

  /** Every node owns the start of some range. */
  lemma {:induction false} NodesUsed(c: Cluster, rs: seq<Span>, i: nat)
    requires c.Valid() && c.ring != [] && i < |Nodes(c, rs)|
    ensures exists k: nat :: FirstUse(c, rs, Nodes(c, rs)[i], k)
  {
    var front := rs[..|rs| - 1];
    var before := Nodes(c, front);
    if i < |before| {
      NodesUsed(c, front, i);
      var k: nat :| FirstUse(c, front, before[i], k);
      assert Nodes(c, rs)[i] == before[i];
      assert FirstUse(c, rs, before[i], k) by { assert forall m :: 0 <= m <= k ==> rs[m] == front[m]; }
    } else {
      NewNode(c, rs);
      assert FirstUse(c, rs, Nodes(c, rs)[i], |front|);
    }
  }

  /** A node that comes last owns no earlier range. */
  lemma NewNode(c: Cluster, rs: seq<Span>)
    requires c.Valid() && c.ring != [] && rs != []
    requires c.Owner(rs[|rs| - 1].0) !in Nodes(c, rs[..|rs| - 1])
    ensures forall m :: 0 <= m < |rs| - 1 ==> c.Owner(rs[m].0) != c.Owner(rs[|rs| - 1].0)
  {
    var front := rs[..|rs| - 1];
    NodesComplete(c, front);
    forall m | 0 <= m < |front| ensures c.Owner(rs[m].0) in Nodes(c, front) { assert front[m] == rs[m]; }
  }

  lemma UsedInFront(c: Cluster, rs: seq<Span>, i: nat, k: nat)
    requires c.Valid() && c.ring != [] && rs != [] && i < |Nodes(c, rs[..|rs| - 1])|
    requires FirstUse(c, rs, Nodes(c, rs[..|rs| - 1])[i], k)
    ensures FirstUse(c, rs[..|rs| - 1], Nodes(c, rs[..|rs| - 1])[i], k)
  {
    NodesUsed(c, rs[..|rs| - 1], i);
    var m: nat :| FirstUse(c, rs[..|rs| - 1], Nodes(c, rs[..|rs| - 1])[i], m);
    assert c.Owner(rs[m].0) == Nodes(c, rs[..|rs| - 1])[i];
  }

  /** The nodes come in the order of their first ranges. */
  lemma {:induction false} NodesInOrder(c: Cluster, rs: seq<Span>, i: nat, j: nat, k: nat, l: nat)
    requires c.Valid() && c.ring != [] && i < j < |Nodes(c, rs)|
    requires FirstUse(c, rs, Nodes(c, rs)[i], k) && FirstUse(c, rs, Nodes(c, rs)[j], l)
    ensures k < l
  {
    var front := rs[..|rs| - 1];
    UsedInFront(c, rs, i, k);
    if j < |Nodes(c, front)| {
      UsedInFront(c, rs, j, l);
      NodesInOrder(c, front, i, j, k, l);
    } else {
      NewNode(c, rs);
    }
  }

  /** The groups that one node yields. */
  function NodeGroups(c: Cluster, rs: seq<Span>, node: Host, step: int, splits: int): seq<seq<Span>>
    requires c.Valid() && c.ring != [] && step >= 1 && splits >= 1
  {
    var partition := AllPieces(OfNode(c, rs, node), step);
    Chunks(partition, GroupSize(|partition|, splits))
  }

  /** The groups of several nodes, one node after the other. */
  function Groups(c: Cluster, rs: seq<Span>, nodes: seq<Host>, step: int, splits: int): seq<seq<Span>>
    requires c.Valid() && c.ring != [] && step >= 1 && splits >= 1
  {
    if nodes == [] then []
    else NodeGroups(c, rs, nodes[0], step, splits) + Groups(c, rs, nodes[1..], step, splits)
  }

  function Total(c: Cluster, rs: seq<Span>, nodes: seq<Host>, t: int): nat
    requires c.Valid() && c.ring != []
  {
    if nodes == [] then 0 else Count(OfNode(c, rs, nodes[0]), t) + Total(c, rs, nodes[1..], t)
  }

  lemma {:induction false} GroupsTotal(c: Cluster, rs: seq<Span>, nodes: seq<Host>, step: int, splits: int, t: int)
    requires c.Valid() && c.ring != [] && step >= 1 && splits >= 1
    ensures Count(Flat(Groups(c, rs, nodes, step, splits)), t) == Total(c, rs, nodes, t)
  {
    if nodes == [] {
    } else {
      var own, rest := NodeGroups(c, rs, nodes[0], step, splits), Groups(c, rs, nodes[1..], step, splits);
      var partition := AllPieces(OfNode(c, rs, nodes[0]), step);
      FlatConcat(own, rest);
      CountConcat(Flat(own), Flat(rest), t);
      ChunksFlat(partition, GroupSize(|partition|, splits));
      AllPiecesExact(OfNode(c, rs, nodes[0]), step, t);
      GroupsTotal(c, rs, nodes[1..], step, splits, t);
    }
  }

  /** One more range adds to the total of its own node only. */
  lemma {:induction false} TotalSnoc(c: Cluster, rs: seq<Span>, nodes: seq<Host>, t: int)
    requires c.Valid() && c.ring != [] && rs != []
    requires Distinct(nodes)
    ensures Total(c, rs, nodes, t) == Total(c, rs[..|rs| - 1], nodes, t)
              + if c.Owner(rs[|rs| - 1].0) in nodes && Holds(rs[|rs| - 1], t) then 1 else 0
  {
    if nodes == [] {
    } else {
      var last := rs[|rs| - 1];
      TotalSnoc(c, rs, nodes[1..], t);
      assert OfNode(c, rs, nodes[0]) == OfNode(c, rs[..|rs| - 1], nodes[0]) + if c.Owner(last.0)
          == nodes[0] then [last] else [];
      CountConcat(OfNode(c, rs[..|rs| - 1], nodes[0]), if c.Owner(last.0) == nodes[0] then [last] else [], t);
      if c.Owner(last.0) == nodes[0] {
        assert nodes[0] !in nodes[1..];
        assert Count([last], t) == if Holds(last, t) then 1 else 0;
      }
    }
  }

  lemma {:induction false} TotalExact(c: Cluster, rs: seq<Span>, nodes: seq<Host>, t: int)
    requires c.Valid() && c.ring != []
    requires Distinct(nodes)
    requires OwnersIn(c, rs, nodes)
    ensures Total(c, rs, nodes, t) == Count(rs, t)
  {
    if rs == [] {
      TotalNone(c, nodes, t);
    } else {
      var last := rs[|rs| - 1];
      TotalSnoc(c, rs, nodes, t);
      TotalExact(c, rs[..|rs| - 1], nodes, t);
      assert rs == rs[..|rs| - 1] + [last];
      CountConcat(rs[..|rs| - 1], [last], t);
    }
  }

  lemma {:induction false} TotalNone(c: Cluster, nodes: seq<Host>, t: int)
    requires c.Valid() && c.ring != []
    ensures Total(c, [], nodes, t) == 0
  {
    if nodes == [] {
    } else {
      TotalNone(c, nodes[1..], t);
    }
  }

  lemma {:induction false} NodesComplete(c: Cluster, rs: seq<Span>)
    requires c.Valid() && c.ring != []
    ensures OwnersIn(c, rs, Nodes(c, rs))
  {
    if rs == [] {
    } else {
      NodesComplete(c, rs[..|rs| - 1]);
      assert rs == rs[..|rs| - 1] + [rs[|rs| - 1]];
    }
  }

  /** Subdividing and grouping neither loses nor repeats a token, whatever the ranges. */
  lemma GroupsConserve(c: Cluster, rs: seq<Span>, step: int, splits: int, t: int)
    requires c.Valid() && c.ring != [] && step >= 1 && splits >= 1
    ensures Count(Flat(Groups(c, rs, Nodes(c, rs), step, splits)), t) == Count(rs, t)
  {
    GroupsTotal(c, rs, Nodes(c, rs), step, splits, t);
    NodesComplete(c, rs);
    TotalExact(c, rs, Nodes(c, rs), t);
  }

  lemma {:induction false} OfNodeOwned(c: Cluster, rs: seq<Span>, node: Host, r: Span)
    requires c.Valid() && c.ring != []
    ensures r in OfNode(c, rs, node) <==> r in rs && c.Owner(r.0) == node
  {
    if rs == [] {
    } else {
      OfNodeOwned(c, rs[..|rs| - 1], node, r);
      assert rs == rs[..|rs| - 1] + [rs[|rs| - 1]];
    }
  }

  /** The ranges of a node keep their order: range `k` comes after those before it. */
  lemma {:induction false} OfNodeInOrder(c: Cluster, rs: seq<Span>, node: Host, k: nat)
    requires c.Valid() && c.ring != [] && k < |rs| && c.Owner(rs[k].0) == node
    ensures var at := |OfNode(c, rs[..k], node)|; at < |OfNode(c, rs, node)| && OfNode(c, rs, node)[at] == rs[k]
  {
    if k < |rs| - 1 {
      OfNodeInOrder(c, rs[..|rs| - 1], node, k);
      assert rs[..|rs| - 1][..k] == rs[..k];
    }
  }

  /** Tokens with no ring token between them have the same successor. */
  lemma {:induction false} SameSuccessor(ring: seq<int>, x: int, t: int)
    requires x <= t && forall m :: 0 <= m < |ring| ==> ring[m] <= x || t < ring[m]
    ensures FirstAbove(ring, x) == FirstAbove(ring, t)
  {
    if ring == [] {
    } else {
      SameSuccessor(ring[1..], x, t);
    }
  }

  /** Every token of a ring range belongs to the node of the start of the range. */
  lemma LinkOwner(c: Cluster, i: nat, t: int)
    requires c.Valid() && c.ring != [] && AllTokens(c.ring)
    requires i < |Links(Bounds(c.ring))| && Holds(Links(Bounds(c.ring))[i], t)
    ensures c.Owner(t) == c.Owner(Links(Bounds(c.ring))[i].0)
  {
    var b := Bounds(c.ring);
    var k := if c.ring[0] > MIN_TOKEN then 1 else 0;
    BoundsSorted(c.ring);
    forall m | 0 <= m < |c.ring| ensures c.ring[m] <= b[i] || t < c.ring[m] {
      assert b[m + k] == c.ring[m];
      if m + k < i { assert b[m + k] <= b[i]; }
      if m + k > i + 1 { assert b[i + 1] <= b[m + k]; }
    }
    SameSuccessor(c.ring, b[i], t);
  }

  /** A piece that a node yields lies in one of the ranges that start at the node,
      and is no wider than the step. */
  lemma NodePiece(c: Cluster, rs: seq<Span>, node: Host, step: int, splits: int, g: seq<Span>, p: Span, t: int)
    requires c.Valid() && c.ring != [] && step >= 1 && splits >= 1
    requires g in NodeGroups(c, rs, node, step, splits) && p in g
    ensures p.1 - p.0 <= step
    ensures Holds(p, t) ==> exists i :: 0 <= i < |rs| && c.Owner(rs[i].0) == node && Holds(rs[i], t)
  {
    var own := OfNode(c, rs, node);
    var partition := AllPieces(own, step);
    ChunksFull(partition, GroupSize(|partition|, splits), g);
    AllPiecesExact(own, step, t);
    if Holds(p, t) {
      var j :| 0 <= j < |own| && Holds(own[j], t);
      OfNodeOwned(c, rs, node, own[j]);
      var i :| 0 <= i < |rs| && rs[i] == own[j];
    }
  }

  /** The split of a whole ring: every token is in exactly one piece, the pieces of a
      node hold only tokens that the node owns, and a node has few groups, none empty. */
  lemma RingSplit(c: Cluster, step: int, splits: int)
    requires c.Valid() && c.ring != [] && AllTokens(c.ring) && step >= 1 && splits >= 1
    ensures var rs := Links(Bounds(c.ring)); Exactly(Flat(Groups(c, rs, Nodes(c, rs), step, splits)), MIN_TOKEN,
                            MAX_TOKEN)
    ensures var rs := Links(Bounds(c.ring)); forall node, g, p, t ::
              g in NodeGroups(c, rs, node, step, splits) && p in g && Holds(p, t) ==> c.Owner(t) == node
    ensures var rs := Links(Bounds(c.ring)); forall node :: |NodeGroups(c, rs, node, step, splits)| <= 2 * splits - 1
    ensures var rs := Links(Bounds(c.ring)); forall node, g :: g in NodeGroups(c, rs, node, step, splits) ==> g != []
  {
    var rs := Links(Bounds(c.ring));
    BoundsSorted(c.ring);
    forall t ensures Count(Flat(Groups(c, rs, Nodes(c, rs), step, splits)), t)
        == if MIN_TOKEN <= t < MAX_TOKEN then 1 else 0 {
      GroupsConserve(c, rs, step, splits, t);
      LinksExact(Bounds(c.ring), t);
    }
    forall node, g, p, t | g in NodeGroups(c, rs, node, step, splits) && p in g
        && Holds(p, t) ensures c.Owner(t) == node {
      NodePiece(c, rs, node, step, splits, g, p, t);
      var i :| 0 <= i < |rs| && c.Owner(rs[i].0) == node && Holds(rs[i], t);
      LinkOwner(c, i, t);
    }
    forall node ensures |NodeGroups(c, rs, node, step, splits)| <= 2 * splits - 1 {
      FewGroups(AllPieces(OfNode(c, rs, node), step), splits);
    }
    forall node, g | g in NodeGroups(c, rs, node, step, splits) ensures g != [] {
      var partition := AllPieces(OfNode(c, rs, node), step);
      ChunksFull(partition, GroupSize(|partition|, splits), g);
    }
  }

  // ---------------------------------------------------------- tokens_partitions

  datatype Yield<+T> = Yielded(groups: T) | ZeroDivisionError | IndexError

  /** The step: the configured range size, else the size that gives enough ranges for
      the estimated data, else an even share.  A `tokenRangeSize` of 0 is unset;
      `estimate` is the estimated size over the target size, rounded down. */
  function StepSize(splits: int, nNodes: nat, tokenRangeSize: int, estimate: Option<nat>): int
    requires splits >= 1 && nNodes >= 1
  {
    MulPos(splits, nNodes);
    var shares := splits * nNodes;
    if tokenRangeSize != 0 then tokenRangeSize
    else if estimate.Some? && estimate.value > shares then MAX_TOKEN / estimate.value
    else MAX_TOKEN / shares
  }

  /** The configured range size; without one the widest step that cuts the ring into the
      required number of parts: the estimated size over the target size, but no fewer than
      the splits of all nodes. */
  ghost predicate RightStep(step: int, splits: int, nNodes: nat, tokenRangeSize: int, estimate: Option<nat>) {
    if tokenRangeSize != 0 then step == tokenRangeSize
    else
      var shares := splits * nNodes;
      var parts := if estimate.Some? && estimate.value > shares then estimate.value else shares;
      step * parts <= MAX_TOKEN < (step + 1) * parts
  }

  lemma StepIsRight(splits: int, nNodes: nat, tokenRangeSize: int, estimate: Option<nat>)
    requires splits >= 1 && nNodes >= 1
    ensures RightStep(StepSize(splits, nNodes, tokenRangeSize, estimate), splits, nNodes, tokenRangeSize, estimate)
  {
    MulPos(splits, nNodes);
    var shares := splits * nNodes;
    var parts := if estimate.Some? && estimate.value > shares then estimate.value else shares;
    DivSplit(MAX_TOKEN, parts);
    MulDist(MAX_TOKEN / parts, 1, parts);
    MulComm(MAX_TOKEN / parts, parts);
  }

  ghost predicate RightWidths(groups: seq<seq<Span>>, rs: seq<Span>, step: int) {
    forall g, p :: g in groups && p in g ==> RightWidth(p, rs, step)
  }

  lemma {:induction false} GroupsWidths(c: Cluster, rs: seq<Span>, nodes: seq<Host>, step: int, splits: int)
    requires c.Valid() && c.ring != [] && step >= 1 && splits >= 1
    ensures RightWidths(Groups(c, rs, nodes, step, splits), rs, step)
  {
    if nodes == [] {
    } else {
      GroupsWidths(c, rs, nodes[1..], step, splits);
      var own, partition := OfNode(c, rs, nodes[0]), AllPieces(OfNode(c, rs, nodes[0]), step);
      forall g, p | g in NodeGroups(c, rs, nodes[0], step, splits) && p in g ensures RightWidth(p, rs, step) {
        ChunksFull(partition, GroupSize(|partition|, splits), g);
        AllPiecesWidths(own, step, p);
        if i :| 0 <= i < |own| && p.1 == own[i].1 {
          OfNodeOwned(c, rs, nodes[0], own[i]);
          var k :| 0 <= k < |rs| && rs[k] == own[i];
        }
      }
    }
  }

  /** The dictionary holds the ranges of every node, and no other key. */
  ghost predicate ByNode(c: Cluster, rs: seq<Span>, per: map<Host, seq<Span>>)
    requires c.Valid() && c.ring != []
  {
    && (forall h :: h in per <==> h in Nodes(c, rs))
    && (forall h :: h in per ==> per[h] == OfNode(c, rs, h))
  }

  lemma {:induction false} OfNodeNone(c: Cluster, rs: seq<Span>, h: Host)
    requires c.Valid() && c.ring != [] && h !in Nodes(c, rs)
    ensures OfNode(c, rs, h) == []
  {
    if rs == [] {
    } else {
      OfNodeNone(c, rs[..|rs| - 1], h);
    }
  }

  lemma ByNodeStep(c: Cluster, rs: seq<Span>, r: Span, per: map<Host, seq<Span>>)
    requires c.Valid() && c.ring != [] && ByNode(c, rs, per)
    ensures var node := c.Owner(r.0);
            ByNode(c, rs + [r], per[node := (if node in per then per[node] else []) + [r]])
  {
    var node, more := c.Owner(r.0), rs + [r];
    assert more[..|more| - 1] == rs;
    if node !in per { OfNodeNone(c, rs, node); }
    var now := per[node := (if node in per then per[node] else []) + [r]];
    forall h ensures h in now <==> h in Nodes(c, more) {}
    forall h | h in now ensures now[h] == OfNode(c, more, h) {}
  }

  /** The loop that hands every range to the node of its first token; the keys keep
      the order of their insertion. */
  method AssignToNodes(c: Cluster, rs: seq<Span>) returns (nodes: seq<Host>, tokensPerNode: map<Host, seq<Span>>)
    requires c.Valid() && c.ring != []
    ensures nodes == Nodes(c, rs) && ByNode(c, rs, tokensPerNode)
  {
    nodes, tokensPerNode := [], map[];
    for i := 0 to |rs|
      invariant nodes == Nodes(c, rs[..i]) && ByNode(c, rs[..i], tokensPerNode)
    {
      ByNodeStep(c, rs[..i], rs[i], tokensPerNode);
      assert rs[..i] + [rs[i]] == rs[..i + 1] && rs[..i + 1][..i] == rs[..i];
      var node := c.Owner(rs[i].0);
      if node in tokensPerNode {
        tokensPerNode := tokensPerNode[node := tokensPerNode[node] + [rs[i]]];
      } else {
        nodes, tokensPerNode := nodes + [node], tokensPerNode[node := [] + [rs[i]]];
      }
    }
    assert rs[..|rs|] == rs;
  }

  lemma GroupsStep(c: Cluster, rs: seq<Span>, nodes: seq<Host>, i: nat, step: int, splits: int)
    requires c.Valid() && c.ring != [] && step >= 1 && splits >= 1 && i < |nodes|
    ensures Groups(c, rs, nodes[i..], step, splits)
         == NodeGroups(c, rs, nodes[i], step, splits) + Groups(c, rs, nodes[i + 1..], step, splits)
  {
    assert nodes[i..][1..] == nodes[i + 1..];
  }

  /** The loop over the nodes. */
  method YieldGroups(c: Cluster, rs: seq<Span>, nodes: seq<Host>, tokensPerNode: map<Host, seq<Span>>, step: int,
                     splits: int)
    returns (groups: seq<seq<Span>>)
    requires c.Valid() && c.ring != [] && step >= 1 && splits >= 1
    requires nodes == Nodes(c, rs) && ByNode(c, rs, tokensPerNode)
    ensures groups == Groups(c, rs, nodes, step, splits)
  {
    groups := [];
    for i := 0 to |nodes|
      invariant groups + Groups(c, rs, nodes[i..], step, splits) == Groups(c, rs, nodes, step, splits)
    {
      assert nodes[i] in nodes;
      var own := YieldNode(c, rs, nodes[i], tokensPerNode[nodes[i]], step, splits);
      GroupsStep(c, rs, nodes, i, step, splits);
      ConcatAssoc(groups, own, Groups(c, rs, nodes[i + 1..], step, splits));
      groups := groups + own;
    }
  }

  /** The body of that loop: cut the ranges of the node, then group them. */
  method YieldNode(c: Cluster, rs: seq<Span>, node: Host, tokensInNode: seq<Span>, step: int, splits: int)
    returns (own: seq<seq<Span>>)
    requires c.Valid() && c.ring != [] && step >= 1 && splits >= 1 && tokensInNode == OfNode(c, rs, node)
    ensures own == NodeGroups(c, rs, node, step, splits)
  {
    var partition := CutRanges(tokensInNode, step);
    own := Regroup(partition, splits);
  }

  /** tokens_partitions: an empty list of ranges divides by zero, a cluster without
      ring tokens has no owner to look up. */
  method TokensPartitions(c: Cluster, rs: seq<Span>, splits: int, tokenRangeSize: int, estimate: Option<nat>)
    returns (r: Yield<seq<seq<Span>>>)
    requires c.Valid() && splits >= 1
    requires c.ring != [] && rs != [] ==> StepSize(splits, |Nodes(c, rs)|, tokenRangeSize, estimate) >= 1
    ensures r.ZeroDivisionError? <==> rs == []
    ensures r.IndexError? <==> rs != [] && c.ring == []
    ensures r.Yielded? ==>
              var nodes := Nodes(c, rs);
              var step := StepSize(splits, |nodes|, tokenRangeSize, estimate);
              && RightStep(step, splits, |nodes|, tokenRangeSize, estimate)
              && r.groups == Groups(c, rs, nodes, step, splits) && RightWidths(r.groups, rs, step)
  {
    if c.ring == [] {
      return if rs == [] then ZeroDivisionError else IndexError;
    }
    var nodes, tokensPerNode := AssignToNodes(c, rs);
    if |nodes| == 0 {
      return ZeroDivisionError;
    }
    var step := StepSize(splits, |nodes|, tokenRangeSize, estimate);
    var groups := YieldGroups(c, rs, nodes, tokensPerNode, step, splits);
    StepIsRight(splits, |nodes|, tokenRangeSize, estimate);
    GroupsWidths(c, rs, nodes, step, splits);
    r := Yielded(groups);
  }

  // ------------------------------------------------------- the C++ interface

  datatype TokenHost = TokenHost(token: int, host: Host)

  function TokensOf(ths: seq<TokenHost>): (ts: seq<int>)
    ensures |ts| == |ths| && forall i :: 0 <= i < |ths| ==> ts[i] == ths[i].token
  {
    seq(|ths|, i requires 0 <= i < |ths| => ths[i].token)
  }

  /** The bounds generate_token_ranges walks through: the greatest token is never one. */
  function ClusterBounds(tokens: seq<int>): seq<int>
    requires |tokens| >= 2
  {
    var n := |tokens|;
    Low(tokens) + tokens[..n - 1] + (if tokens[n - 2] < MAX_TOKEN then [MAX_TOKEN] else [])
  }

  function Low(tokens: seq<int>): seq<int>
    requires tokens != []
  {
    if tokens[0] > MIN_TOKEN then [MIN_TOKEN] else []
  }

  lemma FirstLink(ts: seq<int>)
    requires ts != []
    ensures Links(Low(ts) + ts[..1]) == if ts[0] > MIN_TOKEN then [(MIN_TOKEN, ts[0])] else []
  {}

  lemma NextLink(ts: seq<int>, i: nat)
    requires 1 <= i < |ts|
    ensures Links(Low(ts) + ts[..i + 1]) == Links(Low(ts) + ts[..i]) + [(ts[i - 1], ts[i])]
  {
    LinksSnoc(Low(ts) + ts[..i], ts[i]);
    assert Low(ts) + ts[..i + 1] == Low(ts) + ts[..i] + [ts[i]];
  }

  lemma LastLink(ts: seq<int>)
    requires |ts| >= 2
    ensures var n := |ts|;
            Links(ClusterBounds(ts))
                == Links(Low(ts) + ts[..n - 1]) + if ts[n - 2] < MAX_TOKEN then [(ts[n - 2], MAX_TOKEN)] else []
  {
    var b := Low(ts) + ts[..|ts| - 1];
    LinksSnoc(b, MAX_TOKEN);
    assert b + [] == b;
  }

  /** The tokens of the cluster with one more. */
  function Inserted(ths: seq<TokenHost>, x: TokenHost): seq<TokenHost> {
    var p := FirstAbove(TokensOf(ths), x.token);
    ths[..p] + [x] + ths[p..]
  }

  lemma InsertedAt(ths: seq<TokenHost>, x: TokenHost, p: nat)
    requires p <= |ths| && (p < |ths| ==> x.token < ths[p].token) && forall j :: 0 <= j < p ==> ths[j].token <= x.token
    ensures Inserted(ths, x) == ths[..p] + [x] + ths[p..]
  {
    FirstAboveIs(TokensOf(ths), x.token, p);
  }

  /** Insertion keeps the tokens sorted, adds the new one and loses none. */
  lemma InsertedSorted(ths: seq<TokenHost>, x: TokenHost)
    ensures multiset(Inserted(ths, x)) == multiset(ths) + multiset{x}
    ensures Sorted(TokensOf(ths)) ==> Sorted(TokensOf(Inserted(ths, x)))
  {
    var ts := TokensOf(ths);
    var p := FirstAbove(ts, x.token);
    InsertKeeps(ths, x, p);
    if Sorted(ts) {
      InsertSorted(ts, x.token, p);
      assert TokensOf(Inserted(ths, x)) == ts[..p] + [x.token] + ts[p..];
    }
  }

  lemma ClusterBoundsSorted(tokens: seq<int>)
    requires |tokens| >= 2 && Sorted(tokens) && AllTokens(tokens)
    ensures var b := ClusterBounds(tokens);
            Sorted(b) && b != [] && b[0] == MIN_TOKEN && b[|b| - 1] == MAX_TOKEN
  {
    var n, b := |tokens|, ClusterBounds(tokens);
    assert tokens[0] in tokens && IsToken(tokens[0]) && tokens[n - 2] in tokens && IsToken(tokens[n - 2]);
    var k := if tokens[0] > MIN_TOKEN then 1 else 0;
    forall i, j | 0 <= i < j < |b| ensures b[i] <= b[j] {
      if j - k < n - 1 { assert b[j] == tokens[j - k] && tokens[j - k] in tokens; }
      if i >= k { assert b[i] == tokens[i - k] && tokens[i - k] in tokens; }
    }
  }

  /** Those ranges cross no token but the greatest: none begins before a token and ends
      after it. */
  lemma ClusterUncrossed(tokens: seq<int>, i: nat, j: nat)
    requires |tokens| >= 2 && Sorted(tokens) && AllTokens(tokens)
    requires i < |Links(ClusterBounds(tokens))| && j < |tokens| - 1
    ensures !(Links(ClusterBounds(tokens))[i].0 < tokens[j] < Links(ClusterBounds(tokens))[i].1)
  {
    ClusterBoundsSorted(tokens);
    var b, k := ClusterBounds(tokens), if tokens[0] > MIN_TOKEN then 1 else 0;
    assert b[j + k] == tokens[j];
    if j + k <= i { assert b[j + k] <= b[i]; } else { assert b[i + 1] <= b[j + k]; }
  }

  class StorageInterface {
    var tokensInCluster: seq<TokenHost>
    var tokenRanges: seq<Span>

    constructor ()
      ensures tokensInCluster == [] && tokenRanges == []
    {
      tokensInCluster, tokenRanges := [], [];
    }

    /** The insertion of query_tokens: before the first greater token. */
    method InsertToken(x: TokenHost)
      modifies this`tokensInCluster
      ensures tokensInCluster == Inserted(old(tokensInCluster), x)
    {
      var found, i: nat := false, 0;
      ghost var was := tokensInCluster;
      while !found && i < |tokensInCluster|
        invariant !found ==> tokensInCluster == was && i <= |was| && forall j :: 0 <= j < i ==> was[j].token <= x.token
        invariant found ==> tokensInCluster == Inserted(was, x)
        decreases !found, |tokensInCluster| - i
      {
        if x.token < tokensInCluster[i].token {
          InsertedAt(was, x, i);
          tokensInCluster := tokensInCluster[..i] + [x] + tokensInCluster[i..];
          found := true;
        }
        i := i + 1;
      }
      if !found {
        InsertedAt(was, x, |was|);
        tokensInCluster := tokensInCluster + [x];
      }
    }

    /** generate_token_ranges, for a cluster without tokens or with at least three. */
    method GenerateTokenRanges()
      requires |tokensInCluster| == 0 || |tokensInCluster| >= 3
      modifies this`tokenRanges
      ensures |tokensInCluster| == 0 ==> tokenRanges == old(tokenRanges)
      ensures |tokensInCluster| >= 3 ==>
                tokenRanges == old(tokenRanges) + Links(ClusterBounds(TokensOf(tokensInCluster)))
    {
      if |tokensInCluster| == 0 {
        return;
      }
      var pushed := PushRanges(tokensInCluster);
      tokenRanges := tokenRanges + pushed;
    }
  }

  /** The ranges that generate_token_ranges pushes. */
  method PushRanges(ths: seq<TokenHost>) returns (pushed: seq<Span>)
    requires |ths| >= 3
    ensures pushed == Links(ClusterBounds(TokensOf(ths)))
  {
    ghost var ts := TokensOf(ths);
    var token1, token2 := ths[0].token, 0;
    FirstLink(ts);
    pushed := [];
    if token1 > MIN_TOKEN {
      pushed := pushed + [(MIN_TOKEN, token1)];
    }
    for i := 1 to |ths| - 1
      invariant token1 == ts[i - 1] && (i > 1 ==> token2 == token1)
      invariant pushed == Links(Low(ts) + ts[..i])
    {
      NextLink(ts, i);
      token2 := ths[i].token;
      pushed := pushed + [(token1, token2)];
      token1 := token2;
    }
    LastLink(ts);
    if token2 < MAX_TOKEN {
      pushed := pushed + [(token2, MAX_TOKEN)];
    }
  }

  /** The C++ ranges of three or more sorted tokens partition the ring too. */
  lemma ClusterExact(tokens: seq<int>)
    requires |tokens| >= 3 && Sorted(tokens) && AllTokens(tokens)
    ensures Exactly(Links(ClusterBounds(tokens)), MIN_TOKEN, MAX_TOKEN)
  {
    ClusterBoundsSorted(tokens);
    forall t ensures Count(Links(ClusterBounds(tokens)), t) == if MIN_TOKEN <= t < MAX_TOKEN then 1 else 0 {
      LinksExact(ClusterBounds(tokens), t);
    }
  }
}
