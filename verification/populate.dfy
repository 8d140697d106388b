/**
 The pure helpers of the database seeding script: the index-to-coordinate
 conversion, the grid-neighbour follow-graph generator, the selection of
 isolated users and the deletion of all but the first `UsersMaxIsolated` of
 them (in the shuffled order, which is an input here).

 Randomness is replaced by inputs: the grid dimensions, the shuffled orders
 and the "luck" draws are parameters.
 */
module Populate {
  import opened Store
  import Users
  import Followings

  /** Maximum number of users allowed to stay isolated. */
  const UsersMaxIsolated: nat := 100

  /** Odds that a user follows a grid neighbour. */
  const OneWayFollowOdds: real := 0.5

  /** Odds that two grid neighbours follow each other. */
  const TwoWayFollowOdds: real := 0.15

  /** Every dimension the conversion divides by is positive; the last one is
      never read. */
  predicate DivisorsPositive(dims: seq<int>) {
    forall i :: 0 <= i < |dims| - 1 ==> dims[i] > 0
  }

  /** `_index_to_pos` as written: for each dimension but the last, take the
      quotient by that dimension as the next coordinate and continue with the
      remainder; the final remainder is the last coordinate. */
  function IndexToPos(index: nat, dims: seq<int>): (r: seq<int>)
    requires DivisorsPositive(dims)
    ensures |r| == if |dims| == 0 then 1 else |dims|
    ensures forall k :: 0 <= k < |r| ==> r[k] >= 0
    ensures |dims| >= 2 ==> r[|r| - 1] < dims[|dims| - 2]
    decreases |dims|
  {
    if |dims| <= 1 then [index]
    else [index / dims[0]] + IndexToPos(index % dims[0], dims[1..])
  }

  /** With a single dimension the index itself is the position. */
  lemma IndexToPosSingle(index: nat, d: int)
    ensures IndexToPos(index, [d]) == [index]
  {
  }

  /** The last dimension is never read: replacing it changes nothing. */
  lemma {:induction false} IndexToPosIgnoresLast(index: nat, dims: seq<int>, d: int)
    requires |dims| >= 1 && DivisorsPositive(dims)
    ensures DivisorsPositive(dims[..|dims| - 1] + [d])
    ensures IndexToPos(index, dims[..|dims| - 1] + [d]) == IndexToPos(index, dims)
    decreases |dims|
  {
    var dims' := dims[..|dims| - 1] + [d];
    if |dims| >= 2 {
      assert dims'[0] == dims[0];
      assert dims'[1..] == dims[1..][..|dims| - 2] + [d];
      IndexToPosIgnoresLast(index % dims[0], dims[1..], d);
    }
  }

  /** Distinct indices get distinct positions: the quotient-remainder chain
      loses no information. */
  lemma {:induction false} IndexToPosInjective(i: nat, j: nat, dims: seq<int>)
    requires DivisorsPositive(dims)
    requires IndexToPos(i, dims) == IndexToPos(j, dims)
    ensures i == j
    decreases |dims|
  {
    if |dims| >= 2 {
      var d := dims[0];
      IndexToPosUnfold(i, dims);
      IndexToPosUnfold(j, dims);
      IndexToPosInjective(i % d, j % d, dims[1..]);
      DivModUnique(i, j, d);
    } else {
      assert IndexToPos(i, dims)[0] == i;
    }
  }

  /** The head of a multi-dimensional position is the quotient, the tail the
      position of the remainder. */
  lemma IndexToPosUnfold(i: nat, dims: seq<int>)
    requires DivisorsPositive(dims) && |dims| >= 2
    ensures DivisorsPositive(dims[1..])
    ensures IndexToPos(i, dims)[0] == i / dims[0]
    ensures IndexToPos(i, dims)[1..] == IndexToPos(i % dims[0], dims[1..])
  {
  }

  /** Quotient and remainder determine the number. */
  lemma DivModUnique(i: nat, j: nat, d: int)
    requires d > 0 && i / d == j / d && i % d == j % d
    ensures i == j
  {
    assert i == d * (i / d) + i % d;
    assert j == d * (j / d) + j % d;
  }

  /** As written, positions leave the grid: with dimensions 2 x 2 x 2 the
      index 4, one of the eight cells, gets first coordinate 2. */
  lemma IndexToPosLeavesGrid()
    ensures 4 < 2 * 2 * 2
    ensures IndexToPos(4, [2, 2, 2]) == [2, 0, 0]
    ensures IndexToPos(4, [2, 2, 2])[0] >= 2
  {
    assert IndexToPos(0, [2]) == [0];
    assert IndexToPos(0, [2, 2]) == [0, 0];
  }

  /** The number of cells of a grid. */
  function Product(dims: seq<nat>): (r: nat)
    ensures (forall k :: 0 <= k < |dims| ==> dims[k] > 0) ==> r > 0
  {
    if |dims| == 0 then 1 else dims[0] * Product(dims[1..])
  }

  /** The grid conversion the seeding script evidently intends: row-major
      coordinates, each the quotient by the product of the later
      dimensions. */
  function GridPos(index: nat, dims: seq<nat>): (r: seq<nat>)
    requires |dims| >= 1 && forall k :: 0 <= k < |dims| ==> dims[k] > 0
    ensures |r| == |dims|
    decreases |dims|
  {
    if |dims| == 1 then [index]
    else
      var tail := dims[1..];
      assert forall k :: 0 <= k < |tail| ==> tail[k] == dims[k + 1];
      var inner := Product(tail);
      [index / inner] + GridPos(index % inner, tail)
  }

  /** The inverse of `GridPos`. */
  function PosToIndex(pos: seq<nat>, dims: seq<nat>): nat
    requires |pos| == |dims| >= 1
    decreases |dims|
  {
    if |dims| == 1 then pos[0]
    else pos[0] * Product(dims[1..]) + PosToIndex(pos[1..], dims[1..])
  }

  /** Every index of the grid lands inside the grid. */
  lemma {:induction false} GridPosInBounds(index: nat, dims: seq<nat>)
    requires |dims| >= 1 && forall k :: 0 <= k < |dims| ==> dims[k] > 0
    requires index < Product(dims)
    ensures forall k :: 0 <= k < |dims| ==> GridPos(index, dims)[k] < dims[k]
    decreases |dims|
  {
    if |dims| == 1 {
      assert Product(dims) == dims[0] * Product(dims[1..]);
      assert Product(dims[1..]) == 1;
    } else {
      var inner := Product(dims[1..]);
      var r := GridPos(index, dims);
      assert Product(dims) == dims[0] * inner;
      QuotientBelow(index, dims[0], inner);
      GridPosInBounds(index % inner, dims[1..]);
      forall k | 1 <= k < |dims|
        ensures r[k] < dims[k]
      {
        assert r[k] == GridPos(index % inner, dims[1..])[k - 1];
      }
    }
  }

  /** An index below `a * b` has quotient by `b` below `a`. */
  lemma QuotientBelow(i: nat, a: nat, b: nat)
    requires b > 0 && i < a * b
    ensures i / b < a
  {
    var q := i / b;
    assert q * b <= i;
    MulStrict(q, a, b);
  }

  lemma MulStrict(x: int, y: int, b: int)
    requires b > 0 && x * b < y * b
    ensures x < y
  {
  }

  /** Converting back recovers the index: the intended conversion is a
      bijection between indices and grid cells. */
  lemma {:induction false} GridPosRoundTrip(index: nat, dims: seq<nat>)
    requires |dims| >= 1 && forall k :: 0 <= k < |dims| ==> dims[k] > 0
    ensures PosToIndex(GridPos(index, dims), dims) == index
    decreases |dims|
  {
    if |dims| >= 2 {
      var inner := Product(dims[1..]);
      var r := GridPos(index, dims);
      assert r[0] == index / inner;
      assert r[1..] == GridPos(index % inner, dims[1..]);
      GridPosRoundTrip(index % inner, dims[1..]);
      assert index == (index / inner) * inner + index % inner;
    }
  }

  /** Every cell of the grid has an index below the cell count, and
      converting that index gives the cell back: together with
      `GridPosRoundTrip`, `GridPos` is a bijection between the indices below
      `Product(dims)` and the cells. */
  lemma {:induction false} PosToIndexRoundTrip(pos: seq<nat>, dims: seq<nat>)
    requires |pos| == |dims| >= 1
    requires forall k :: 0 <= k < |dims| ==> pos[k] < dims[k]
    ensures PosToIndex(pos, dims) < Product(dims)
    ensures GridPos(PosToIndex(pos, dims), dims) == pos
    decreases |dims|
  {
    if |dims| == 1 {
      assert Product(dims) == dims[0] * Product(dims[1..]);
      assert Product(dims[1..]) == 1;
    } else {
      var tail := dims[1..];
      var inner := Product(tail);
      var rest := PosToIndex(pos[1..], tail);
      assert forall k :: 0 <= k < |tail| ==> pos[1..][k] < tail[k] by {
        forall k | 0 <= k < |tail|
          ensures pos[1..][k] < tail[k]
        {
          assert pos[1..][k] == pos[k + 1] && tail[k] == dims[k + 1];
        }
      }
      PosToIndexRoundTrip(pos[1..], tail);
      assert PosToIndex(pos, dims) == pos[0] * inner + rest;
      assert Product(dims) == dims[0] * inner;
      BelowProduct(pos[0], rest, dims[0], inner);
      DivModOfSum(pos[0], rest, inner);
      assert GridPos(PosToIndex(pos, dims), dims) == [pos[0]] + GridPos(rest, tail);
      assert [pos[0]] + pos[1..] == pos;
    }
  }

  /** A digit below `a` followed by a remainder below `b` stays below `a * b`. */
  lemma BelowProduct(q: nat, r: nat, a: nat, b: nat)
    requires q < a && r < b
    ensures q * b + r < a * b
  {
    assert (q + 1) * b == q * b + b;
    MulMono(q + 1, a, b);
  }

  lemma MulMono(x: nat, y: nat, b: nat)
    requires x <= y
    ensures x * b <= y * b
  {
  }

  /** Quotient and remainder of `q * b + r` by `b` when `r < b`. */
  lemma DivModOfSum(q: nat, r: nat, b: nat)
    requires r < b
    ensures (q * b + r) / b == q
    ensures (q * b + r) % b == r
  {
    var n := q * b + r;
    var q', r' := n / b, n % b;
    assert n == q' * b + r';
    if q' < q {
      MulMono(q' + 1, q, b);
    } else if q < q' {
      MulMono(q + 1, q', b);
    }
  }

  /** `q` is `p` moved one step down along dimension `k`. */
  predicate StepDownAt(p: seq<int>, q: seq<int>, k: int) {
    0 <= k < |p| && q == p[k := p[k] - 1]
  }

  /** `q` is a grid neighbour of `p` one step down along some dimension. */
  ghost predicate StepDown(p: seq<int>, q: seq<int>) {
    exists k :: StepDownAt(p, q, k)
  }

  /** A step down is never also a step up, and never stays in place. */
  lemma StepDownAsymmetric(p: seq<int>, q: seq<int>)
    requires StepDown(p, q)
    ensures !StepDown(q, p)
    ensures p != q
  {
    var k :| StepDownAt(p, q, k);
    assert q[k] == p[k] - 1;
    forall k' | 0 <= k' < |q|
      ensures !StepDownAt(q, p, k')
    {
      assert q[k' := q[k'] - 1][k'] == q[k'] - 1;
      if k' != k {
        assert q[k'] == p[k'];
      }
    }
  }

  /** The users of the list are distinct (they are documents' ids). */
  predicate Distinct(users: seq<Id>) {
    forall i, j :: 0 <= i < j < |users| ==> users[i] != users[j]
  }

  /** `pos_of_obj`: each user's position. */
  function PosOf(users: seq<Id>, pos: seq<seq<int>>): (r: map<Id, seq<int>>)
    requires |pos| == |users| && Distinct(users)
    ensures forall i :: 0 <= i < |users| ==> users[i] in r && r[users[i]] == pos[i]
    ensures forall a :: a in r ==> a in users
  {
    map i | 0 <= i < |users| :: users[i] := pos[i]
  }

  /** `obj_of_pos.get(q)`: inverting `pos_of_obj` keeps, for each position,
      the last user inserted with it. */
  function LastAt(pos: seq<seq<int>>, q: seq<int>, n: nat): (r: Option<nat>)
    requires n <= |pos|
    ensures r.Some? ==> r.value < n && pos[r.value] == q
    ensures r.Some? ==> forall j :: r.value < j < n ==> pos[j] != q
    ensures r.None? ==> forall j :: 0 <= j < n ==> pos[j] != q
  {
    if n == 0 then None
    else if pos[n - 1] == q then Some(n - 1)
    else LastAt(pos, q, n - 1)
  }

  /** `followings[a].add(b)` on a `defaultdict(set)`. */
  function AddEdge(g: map<Id, set<Id>>, a: Id, b: Id): (r: map<Id, set<Id>>)
    ensures r.Keys == g.Keys + {a}
    ensures r[a] == (if a in g then g[a] else {}) + {b}
    ensures forall x :: x in g && x != a ==> r[x] == g[x]
  {
    g[a := (if a in g then g[a] else {}) + {b}]
  }

  /** `a` follows `b` in the generated edge set. */
  predicate Follows(g: map<Id, set<Id>>, a: Id, b: Id) {
    a in g && b in g[a]
  }

  /** An edge set where every stored set is non-empty, every edge joins two
      listed users one grid step apart, and every upward edge is matched by
      the downward edge in the other direction. */
  ghost predicate GraphShape(g: map<Id, set<Id>>, posOf: map<Id, seq<int>>) {
    && (forall a :: a in g ==> g[a] != {})
    && (forall a, b :: Follows(g, a, b) ==>
          a in posOf && b in posOf && (StepDown(posOf[a], posOf[b]) || StepDown(posOf[b], posOf[a])))
    && (forall a, b :: Follows(g, a, b) && a in posOf && b in posOf && StepDown(posOf[b], posOf[a]) ==>
          Follows(g, b, a))
  }

  /** The neighbour `_generate_social_graph` looks up for user `i` along
      dimension `k`. */
  function Neighbour(pos: seq<seq<int>>, i: nat, k: nat): (r: Option<nat>)
    requires i < |pos| && k < |pos[i]|
    ensures r.Some? ==> r.value < |pos| && StepDownAt(pos[i], pos[r.value], k)
    ensures r.Some? ==> forall j :: r.value < j < |pos| ==> !StepDownAt(pos[i], pos[j], k)
    ensures r.None? ==> forall j :: 0 <= j < |pos| ==> !StepDownAt(pos[i], pos[j], k)
  {
    LastAt(pos, pos[i][k := pos[i][k] - 1], |pos|)
  }

  /** The edges the draw `luck[i][k]` must produce. */
  predicate Produced(g: map<Id, set<Id>>, users: seq<Id>, pos: seq<seq<int>>, luck: seq<seq<real>>, i: nat, k: nat)
    requires |pos| == |users| == |luck| && i < |users| && k < |pos[i]| && |luck[i]| == |pos[i]|
  {
    Neighbour(pos, i, k).Some? ==>
      var j := Neighbour(pos, i, k).value;
      && (luck[i][k] < OneWayFollowOdds ==> Follows(g, users[i], users[j]))
      && (luck[i][k] < TwoWayFollowOdds ==> Follows(g, users[j], users[i]))
  }

  /** The draw of user `i` along dimension `k` puts the edge from `a` to `b`
      in the graph: the forward edge below the one-way odds, the reverse edge
      below the two-way odds. */
  predicate DrawAdds(users: seq<Id>, pos: seq<seq<int>>, luck: seq<seq<real>>, i: int, k: int, a: Id, b: Id) {
    && |users| == |pos| == |luck|
    && 0 <= i < |users| && 0 <= k < |pos[i]| && k < |luck[i]|
    && Neighbour(pos, i, k).Some?
    && var j := Neighbour(pos, i, k).value;
      || (a == users[i] && b == users[j] && luck[i][k] < OneWayFollowOdds)
      || (a == users[j] && b == users[i] && luck[i][k] < TwoWayFollowOdds)
  }

  /** Draw `(i, k)` comes before the cursor `(n, m)` in the generator's loop
      order. */
  predicate Before(pos: seq<seq<int>>, i: int, k: int, n: int, m: int) {
    0 <= i < |pos| && 0 <= k < |pos[i]| && (i < n || (i == n && k < m))
  }

  /** Every edge of `g` was put there by a draw before the cursor `(n, m)`. */
  ghost predicate FromDraws(g: map<Id, set<Id>>, users: seq<Id>, pos: seq<seq<int>>, luck: seq<seq<real>>, n: int, m: int) {
    forall a, b :: Follows(g, a, b) ==>
      exists i, k :: Before(pos, i, k, n, m) && DrawAdds(users, pos, luck, i, k, a, b)
  }

  /** Moving the cursor forward keeps every edge accounted for. */
  lemma FromDrawsMono(g: map<Id, set<Id>>, users: seq<Id>, pos: seq<seq<int>>, luck: seq<seq<real>>, n: int, m: int, n2: int, m2: int)
    requires FromDraws(g, users, pos, luck, n, m)
    requires n < n2 || (n == n2 && m <= m2)
    ensures FromDraws(g, users, pos, luck, n2, m2)
  {
    forall a, b | Follows(g, a, b)
      ensures exists i, k :: Before(pos, i, k, n2, m2) && DrawAdds(users, pos, luck, i, k, a, b)
    {
      var i, k :| Before(pos, i, k, n, m) && DrawAdds(users, pos, luck, i, k, a, b);
      assert Before(pos, i, k, n2, m2);
    }
  }

  /** The edges one draw adds are accounted for by that draw. */
  lemma DrawFromDraws(g: map<Id, set<Id>>, users: seq<Id>, pos: seq<seq<int>>, luck: seq<seq<real>>, i: nat, k: nat)
    requires |pos| == |users| == |luck| && i < |users| && k < |pos[i]| && |luck[i]| == |pos[i]|
    requires Neighbour(pos, i, k).Some?
    requires FromDraws(g, users, pos, luck, i, k)
    ensures FromDraws(ApplyDraw(g, users[i], users[Neighbour(pos, i, k).value], luck[i][k]), users, pos, luck, i, k + 1)
  {
    var j := Neighbour(pos, i, k).value;
    var r := ApplyDraw(g, users[i], users[j], luck[i][k]);
    forall a, b | Follows(r, a, b)
      ensures exists i', k' :: Before(pos, i', k', i, k + 1) && DrawAdds(users, pos, luck, i', k', a, b)
    {
      if Follows(g, a, b) {
        var i', k' :| Before(pos, i', k', i, k) && DrawAdds(users, pos, luck, i', k', a, b);
        assert Before(pos, i', k', i, k + 1);
      } else {
        assert DrawAdds(users, pos, luck, i, k, a, b);
        assert Before(pos, i, k, i, k + 1);
      }
    }
  }

  /** `_generate_social_graph` with the position of each user given (the
      table `pos_of_obj` is built from `pos[i]` for `users[i]`) and the draw
      for user `i` along dimension `k` given as `luck[i][k]`; a draw is only
      consulted when that neighbour exists. */
  method GenerateSocialGraph(users: seq<Id>, pos: seq<seq<int>>, luck: seq<seq<real>>) returns (g: map<Id, set<Id>>)
    requires |pos| == |users| == |luck| && Distinct(users)
    requires forall i :: 0 <= i < |users| ==> |luck[i]| == |pos[i]|
    ensures GraphShape(g, PosOf(users, pos))
    ensures forall a, b :: Follows(g, a, b) ==> a != b
    ensures forall i, k :: 0 <= i < |users| && 0 <= k < |pos[i]| ==> Produced(g, users, pos, luck, i, k)
    ensures FromDraws(g, users, pos, luck, |users|, 0)
  {
    g := map[];
    var i := 0;
    while i < |users|
      invariant 0 <= i <= |users|
      invariant GraphShape(g, PosOf(users, pos))
      invariant forall i', k' :: 0 <= i' < i && 0 <= k' < |pos[i']| ==> Produced(g, users, pos, luck, i', k')
      invariant FromDraws(g, users, pos, luck, i, 0)
    {
      var g' := FollowNeighbours(g, users, pos, luck, i);
      UserStepKeeps(g, g', users, pos, luck, i);
      g := g';
      i := i + 1;
    }
    ShapeIrreflexive(g, PosOf(users, pos));
  }

  /** After user `i`'s pass, the draws of users up to `i` are accounted for
      in both directions. */
  lemma UserStepKeeps(g: map<Id, set<Id>>, g': map<Id, set<Id>>, users: seq<Id>, pos: seq<seq<int>>, luck: seq<seq<real>>, i: nat)
    requires |pos| == |users| == |luck| && i < |users|
    requires forall x :: 0 <= x < |users| ==> |luck[x]| == |pos[x]|
    requires forall i', k' :: 0 <= i' < i && 0 <= k' < |pos[i']| ==> Produced(g, users, pos, luck, i', k')
    requires forall a :: a in g ==> a in g' && g[a] <= g'[a]
    requires forall k :: 0 <= k < |pos[i]| ==> Produced(g', users, pos, luck, i, k)
    requires FromDraws(g', users, pos, luck, i, |pos[i]|)
    ensures forall i', k' :: 0 <= i' < i + 1 && 0 <= k' < |pos[i']| ==> Produced(g', users, pos, luck, i', k')
    ensures FromDraws(g', users, pos, luck, i + 1, 0)
  {
    GrowKeepsProduced(g, g', users, pos, luck, i, 0);
    FromDrawsMono(g', users, pos, luck, i, |pos[i]|, i + 1, 0);
  }

  /** The body of the generator's outer loop: user `i` draws once per
      dimension against the neighbour one step below it. */
  method FollowNeighbours(g0: map<Id, set<Id>>, users: seq<Id>, pos: seq<seq<int>>, luck: seq<seq<real>>, i: nat) returns (g: map<Id, set<Id>>)
    requires |pos| == |users| == |luck| && Distinct(users) && i < |users|
    requires forall x :: 0 <= x < |users| ==> |luck[x]| == |pos[x]|
    requires GraphShape(g0, PosOf(users, pos))
    requires FromDraws(g0, users, pos, luck, i, 0)
    ensures GraphShape(g, PosOf(users, pos))
    ensures forall a :: a in g0 ==> a in g && g0[a] <= g[a]
    ensures forall k :: 0 <= k < |pos[i]| ==> Produced(g, users, pos, luck, i, k)
    ensures FromDraws(g, users, pos, luck, i, |pos[i]|)
  {
    g := g0;
    var k := 0;
    while k < |pos[i]|
      invariant 0 <= k <= |pos[i]|
      invariant GraphShape(g, PosOf(users, pos))
      invariant forall a :: a in g0 ==> a in g && g0[a] <= g[a]
      invariant forall k' :: 0 <= k' < k ==> Produced(g, users, pos, luck, i, k')
      invariant FromDraws(g, users, pos, luck, i, k)
    {
      DrawStepShape(g, users, pos, luck, i, k);
      DrawStepProduces(g0, g, users, pos, luck, i, k);
      DrawStepFromDraws(g, users, pos, luck, i, k);
      g := DrawStep(g, users, pos, luck, i, k);
      k := k + 1;
    }
  }

  /** One iteration of the inner loop: the draw against the neighbour below
      user `i` along dimension `k`, if there is one. */
  function DrawStep(g: map<Id, set<Id>>, users: seq<Id>, pos: seq<seq<int>>, luck: seq<seq<real>>, i: nat, k: nat): (r: map<Id, set<Id>>)
    requires |pos| == |users| == |luck| && i < |users| && k < |pos[i]| && |luck[i]| == |pos[i]|
    ensures Neighbour(pos, i, k).None? ==> r == g
    ensures Neighbour(pos, i, k).Some? ==> r == ApplyDraw(g, users[i], users[Neighbour(pos, i, k).value], luck[i][k])
  {
    match Neighbour(pos, i, k)
    case None => g
    case Some(j) => ApplyDraw(g, users[i], users[j], luck[i][k])
  }

  /** One iteration keeps the shape of the edge set. */
  lemma DrawStepShape(g: map<Id, set<Id>>, users: seq<Id>, pos: seq<seq<int>>, luck: seq<seq<real>>, i: nat, k: nat)
    requires |pos| == |users| == |luck| && Distinct(users) && i < |users| && k < |pos[i]| && |luck[i]| == |pos[i]|
    requires GraphShape(g, PosOf(users, pos))
    ensures GraphShape(DrawStep(g, users, pos, luck, i, k), PosOf(users, pos))
  {
    var posOf := PosOf(users, pos);
    if Neighbour(pos, i, k).Some? {
      var j := Neighbour(pos, i, k).value;
      assert StepDownAt(posOf[users[i]], posOf[users[j]], k);
      DrawKeepsShape(g, posOf, users[i], users[j], luck[i][k]);
    }
  }

  /** One iteration only grows the edge set and produces the edges its draw
      calls for. */
  lemma DrawStepProduces(g0: map<Id, set<Id>>, g: map<Id, set<Id>>, users: seq<Id>, pos: seq<seq<int>>, luck: seq<seq<real>>, i: nat, k: nat)
    requires |pos| == |users| == |luck| && i < |users| && k < |pos[i]|
    requires forall x :: 0 <= x < |users| ==> |luck[x]| == |pos[x]|
    requires forall a :: a in g0 ==> a in g && g0[a] <= g[a]
    requires forall k' :: 0 <= k' < k ==> Produced(g, users, pos, luck, i, k')
    ensures var r := DrawStep(g, users, pos, luck, i, k);
      && (forall a :: a in g0 ==> a in r && g0[a] <= r[a])
      && (forall k' :: 0 <= k' < k + 1 ==> Produced(r, users, pos, luck, i, k'))
  {
    var r := DrawStep(g, users, pos, luck, i, k);
    GrowKeepsProduced(g, r, users, pos, luck, i, k);
  }

  /** One iteration adds no edge its draw does not call for. */
  lemma DrawStepFromDraws(g: map<Id, set<Id>>, users: seq<Id>, pos: seq<seq<int>>, luck: seq<seq<real>>, i: nat, k: nat)
    requires |pos| == |users| == |luck| && i < |users| && k < |pos[i]| && |luck[i]| == |pos[i]|
    requires FromDraws(g, users, pos, luck, i, k)
    ensures FromDraws(DrawStep(g, users, pos, luck, i, k), users, pos, luck, i, k + 1)
  {
    if Neighbour(pos, i, k).Some? {
      DrawFromDraws(g, users, pos, luck, i, k);
    } else {
      FromDrawsMono(g, users, pos, luck, i, k, i, k + 1);
    }
  }

  /** No edge of a well-shaped edge set joins a user to itself. */
  lemma ShapeIrreflexive(g: map<Id, set<Id>>, posOf: map<Id, seq<int>>)
    requires GraphShape(g, posOf)
    ensures forall a, b :: Follows(g, a, b) ==> a != b
  {
    forall a, b | Follows(g, a, b)
      ensures a != b
    {
      if StepDown(posOf[a], posOf[b]) {
        StepDownAsymmetric(posOf[a], posOf[b]);
      } else {
        StepDownAsymmetric(posOf[b], posOf[a]);
      }
    }
  }

  /** One draw for the pair `a`, `b` where `b` is the neighbour below `a`:
      below the one-way odds `a` follows `b`; below the two-way odds `b`
      also follows `a`. */
  function ApplyDraw(g: map<Id, set<Id>>, a: Id, b: Id, draw: real): (r: map<Id, set<Id>>)
    ensures forall x :: x in g ==> x in r && g[x] <= r[x]
    ensures draw < OneWayFollowOdds ==> Follows(r, a, b)
    ensures draw < TwoWayFollowOdds ==> Follows(r, b, a)
    ensures r.Keys == g.Keys + (if draw < OneWayFollowOdds then {a} else {}) + (if draw < TwoWayFollowOdds then {b} else {})
    ensures forall x, y :: Follows(r, x, y) <==>
      || Follows(g, x, y)
      || (x == a && y == b && draw < OneWayFollowOdds)
      || (x == b && y == a && draw < TwoWayFollowOdds)
  {
    var g1 := if draw < OneWayFollowOdds then AddEdge(g, a, b) else g;
    if draw < TwoWayFollowOdds then AddEdge(g1, b, a) else g1
  }

  /** A draw between grid neighbours keeps the shape of the edge set: the
      downward edge it may add is a step down, and the upward edge it may add
      comes with the downward one, since the two-way odds are below the
      one-way odds. */
  lemma DrawKeepsShape(g: map<Id, set<Id>>, posOf: map<Id, seq<int>>, a: Id, b: Id, draw: real)
    requires GraphShape(g, posOf)
    requires a in posOf && b in posOf && StepDown(posOf[a], posOf[b])
    ensures GraphShape(ApplyDraw(g, a, b, draw), posOf)
  {
    StepDownAsymmetric(posOf[a], posOf[b]);
    var g1 := if draw < OneWayFollowOdds then AddEdge(g, a, b) else g;
    AddKeepsShape(g, posOf, a, b);
    assert GraphShape(g1, posOf);
    if draw < TwoWayFollowOdds {
      AddKeepsShape(g1, posOf, b, a);
    }
  }

  /** Adding an edge between grid neighbours keeps the shape, provided an
      upward edge is only added when its downward partner is there. */
  lemma AddKeepsShape(g: map<Id, set<Id>>, posOf: map<Id, seq<int>>, a: Id, b: Id)
    requires GraphShape(g, posOf)
    requires a in posOf && b in posOf && (StepDown(posOf[a], posOf[b]) || StepDown(posOf[b], posOf[a]))
    requires StepDown(posOf[b], posOf[a]) ==> Follows(g, b, a)
    ensures GraphShape(AddEdge(g, a, b), posOf)
  {
    var r := AddEdge(g, a, b);
    forall x, y | Follows(r, x, y)
      ensures x in posOf && y in posOf && (StepDown(posOf[x], posOf[y]) || StepDown(posOf[y], posOf[x]))
    {
      if x != a || y != b {
        assert Follows(g, x, y);
      }
    }
    forall x, y | Follows(r, x, y) && x in posOf && y in posOf && StepDown(posOf[y], posOf[x])
      ensures Follows(r, y, x)
    {
      if x == a && y == b {
        assert Follows(g, b, a);
      } else {
        assert Follows(g, x, y);
      }
    }
  }

  /** The edge set only grows, so the draws already accounted for stay
      accounted for. */
  lemma GrowKeepsProduced(g: map<Id, set<Id>>, g': map<Id, set<Id>>, users: seq<Id>, pos: seq<seq<int>>, luck: seq<seq<real>>, i: nat, k: nat)
    requires |pos| == |users| == |luck| && i < |users| && k <= |pos[i]|
    requires forall x :: 0 <= x < |users| ==> |luck[x]| == |pos[x]|
    requires forall a :: a in g ==> a in g' && g[a] <= g'[a]
    ensures forall i', k' :: 0 <= i' < i && 0 <= k' < |pos[i']| && Produced(g, users, pos, luck, i', k') ==> Produced(g', users, pos, luck, i', k')
    ensures forall k' :: 0 <= k' < k && Produced(g, users, pos, luck, i, k') ==> Produced(g', users, pos, luck, i, k')
  {
  }

  /** `db'` differs from `db` at most in the users' followings lists. */
  predicate SameExceptFollowings(db: Db, db': Db) {
    && db'.posts == db.posts && db'.comments == db.comments
    && db'.users.Keys == db.users.Keys
    && (forall v :: v in db.users ==> db'.users[v] == db.users[v].(followings := db'.users[v].followings))
  }

  /** The follow loop of `populate`: `follow_user` for each generated edge in
      the order the edge table is iterated (an input here). The first failure
      stops the loop. */
  function ApplyFollows(db: Db, edges: seq<(Id, Id)>): (r: Result<Db>)
    ensures r.Ok? <==> forall k :: 0 <= k < |edges| ==> edges[k].0 in db.users && edges[k].1 in db.users
    ensures r.Err? ==> r.error == UserNotFound
    ensures r.Ok? ==> SameExceptFollowings(db, r.value)
    decreases |edges|
  {
    if |edges| == 0 then Ok(db)
    else
      var (db1, _) :- Followings.FollowUser(db, edges[0].0, edges[0].1);
      var r := ApplyFollows(db1, edges[1..]);
      FollowStepShape(db, db1, edges[0].0, r);
      EndpointsShift(db.users, edges);
      r
  }

  /** One `follow_user` step followed by a run that changes only followings
      changes only followings. */
  lemma FollowStepShape(db: Db, db1: Db, u: Id, r: Result<Db>)
    requires Followings.OnlyFollowingsOf(db, db1, u)
    requires r.Ok? ==> SameExceptFollowings(db1, r.value)
    ensures db1.users.Keys == db.users.Keys
    ensures r.Ok? ==> SameExceptFollowings(db, r.value)
  {
  }

  /** Every edge has both endpoints among `users` iff the first one does and
      the rest do. */
  lemma EndpointsShift(users: map<Id, User>, edges: seq<(Id, Id)>)
    requires |edges| > 0
    ensures (forall k :: 0 <= k < |edges| ==> edges[k].0 in users && edges[k].1 in users) <==>
      (edges[0].0 in users && edges[0].1 in users &&
       forall k :: 0 <= k < |edges[1..]| ==> edges[1..][k].0 in users && edges[1..][k].1 in users)
  {
    if forall k :: 0 <= k < |edges[1..]| ==> edges[1..][k].0 in users && edges[1..][k].1 in users {
      forall k | 1 <= k < |edges|
        ensures edges[k].0 in users && edges[k].1 in users
      {
        assert edges[k] == edges[1..][k - 1];
      }
    }
  }

  /** The loop never removes an entry from a followings list. */
  lemma {:induction false} ApplyFollowsKeeps(db: Db, edges: seq<(Id, Id)>)
    requires ApplyFollows(db, edges).Ok?
    ensures forall v, y :: v in db.users && y in db.users[v].followings ==> y in ApplyFollows(db, edges).value.users[v].followings
    decreases |edges|
  {
    if |edges| > 0 {
      var db1 := Followings.FollowUser(db, edges[0].0, edges[0].1).value.0;
      assert ApplyFollows(db, edges) == ApplyFollows(db1, edges[1..]);
      ApplyFollowsKeeps(db1, edges[1..]);
    }
  }

  /** After the loop every edge is in its follower's list. */
  lemma {:induction false} ApplyFollowsAdds(db: Db, edges: seq<(Id, Id)>)
    requires ApplyFollows(db, edges).Ok?
    ensures forall k :: 0 <= k < |edges| ==> edges[k].1 in ApplyFollows(db, edges).value.users[edges[k].0].followings
    decreases |edges|
  {
    if |edges| > 0 {
      var db1 := Followings.FollowUser(db, edges[0].0, edges[0].1).value.0;
      assert ApplyFollows(db, edges) == ApplyFollows(db1, edges[1..]);
      ApplyFollowsAdds(db1, edges[1..]);
      ApplyFollowsKeeps(db1, edges[1..]);
      var db' := ApplyFollows(db, edges).value;
      forall k | 0 <= k < |edges|
        ensures edges[k].1 in db'.users[edges[k].0].followings
      {
        if k > 0 {
          assert edges[k] == edges[1..][k - 1];
        }
      }
    }
  }

  /** The loop adds nothing but the edges it is given. */
  lemma {:induction false} ApplyFollowsOnlyEdges(db: Db, edges: seq<(Id, Id)>)
    requires ApplyFollows(db, edges).Ok?
    ensures forall v, y :: v in db.users && y in ApplyFollows(db, edges).value.users[v].followings ==>
      y in db.users[v].followings || (v, y) in edges
    decreases |edges|
  {
    if |edges| > 0 {
      var db1 := Followings.FollowUser(db, edges[0].0, edges[0].1).value.0;
      assert ApplyFollows(db, edges) == ApplyFollows(db1, edges[1..]);
      ApplyFollowsOnlyEdges(db1, edges[1..]);
      var db' := ApplyFollows(db, edges).value;
      forall v, y | v in db.users && y in db'.users[v].followings
        ensures y in db.users[v].followings || (v, y) in edges
      {
        if y !in db1.users[v].followings {
          assert (v, y) in edges[1..];
        }
      }
    }
  }

  /** Following the generated edges keeps a consistent store consistent and
      e-mails unique. */
  lemma {:induction false} ApplyFollowsPreservesInvariants(db: Db, edges: seq<(Id, Id)>)
    requires Consistent(db) && UniqueEmails(db)
    requires ApplyFollows(db, edges).Ok?
    ensures Consistent(ApplyFollows(db, edges).value) && UniqueEmails(ApplyFollows(db, edges).value)
    decreases |edges|
  {
    if |edges| > 0 {
      var db1 := Followings.FollowUser(db, edges[0].0, edges[0].1).value.0;
      Followings.FollowPreservesInvariants(db, edges[0].0, edges[0].1);
      ApplyFollowsPreservesInvariants(db1, edges[1..]);
    }
  }

  /** The follow loop of the earlier seeding script, which issues each
      follow as an HTTP request and ignores the response: a failed follow
      changes nothing and the loop goes on. */
  function ApplyFollowsContinuing(db: Db, edges: seq<(Id, Id)>): (r: Db)
    ensures SameExceptFollowings(db, r)
    ensures forall v, y :: v in db.users && y in db.users[v].followings ==> y in r.users[v].followings
    decreases |edges|
  {
    if |edges| == 0 then db
    else
      match Followings.FollowUser(db, edges[0].0, edges[0].1) {
        case Ok((db1, _)) =>
          var r := ApplyFollowsContinuing(db1, edges[1..]);
          FollowStepShape(db, db1, edges[0].0, Ok(r));
          r
        case Err(_) => ApplyFollowsContinuing(db, edges[1..])
      }
  }

  /** When no follow fails, skipping failures and stopping at the first one
      reach the same store. */
  lemma {:induction false} ContinuingAgreesWhenNoFailure(db: Db, edges: seq<(Id, Id)>)
    requires ApplyFollows(db, edges).Ok?
    ensures ApplyFollowsContinuing(db, edges) == ApplyFollows(db, edges).value
    decreases |edges|
  {
    if |edges| > 0 {
      var db1 := Followings.FollowUser(db, edges[0].0, edges[0].1).value.0;
      assert ApplyFollows(db, edges) == ApplyFollows(db1, edges[1..]);
      ContinuingAgreesWhenNoFailure(db1, edges[1..]);
    }
  }

  /** Skipping failures, every edge whose two users exist ends up in its
      follower's list. */
  lemma {:induction false} ContinuingAddsValidEdges(db: Db, edges: seq<(Id, Id)>)
    ensures forall k :: 0 <= k < |edges| && edges[k].0 in db.users && edges[k].1 in db.users ==>
      edges[k].1 in ApplyFollowsContinuing(db, edges).users[edges[k].0].followings
    decreases |edges|
  {
    if |edges| > 0 {
      var r := ApplyFollowsContinuing(db, edges);
      match Followings.FollowUser(db, edges[0].0, edges[0].1) {
        case Ok((db1, _)) =>
          ContinuingAddsValidEdges(db1, edges[1..]);
          forall k | 0 <= k < |edges| && edges[k].0 in db.users && edges[k].1 in db.users
            ensures edges[k].1 in r.users[edges[k].0].followings
          {
            if k > 0 {
              assert edges[k] == edges[1..][k - 1];
            }
          }
        case Err(_) =>
          ContinuingAddsValidEdges(db, edges[1..]);
          forall k | 0 <= k < |edges| && edges[k].0 in db.users && edges[k].1 in db.users
            ensures edges[k].1 in r.users[edges[k].0].followings
          {
            assert k > 0;
            assert edges[k] == edges[1..][k - 1];
          }
      }
    }
  }

  /** The isolated users: those with no key in the generated graph and in no
      listed user's set. `followings[f]` on the `defaultdict` reads an empty
      set for a user without a key. */
  method FindIsolated(users: seq<Id>, g: map<Id, set<Id>>) returns (isolated: set<Id>)
    ensures forall x :: x in isolated <==>
      && x in users
      && x !in g
      && (forall j :: 0 <= j < |users| && users[j] in g ==> x !in g[users[j]])
  {
    isolated := set x | x in users;
    var i := 0;
    while i < |users|
      invariant 0 <= i <= |users|
      invariant forall x :: x in isolated <==> x in users && (forall j :: 0 <= j < i ==> users[j] != x || x !in g)
    {
      if users[i] in g {
        isolated := isolated - {users[i]};
      }
      i := i + 1;
    }
    assert forall x :: x in isolated <==> x in users && x !in g;
    i := 0;
    while i < |users|
      invariant 0 <= i <= |users|
      invariant forall x :: x in isolated <==>
        && x in users && x !in g
        && (forall j :: 0 <= j < i && users[j] in g ==> x !in g[users[j]])
    {
      var targets := if users[i] in g then g[users[i]] else {};
      isolated := isolated - targets;
      i := i + 1;
    }
  }

  /** On a generated graph (every stored set non-empty, every key a listed
      user) a user is isolated exactly when it follows nobody and nobody
      follows it. */
  lemma IsolatedMeansNoEdges(users: seq<Id>, g: map<Id, set<Id>>, x: Id)
    requires forall a :: a in g ==> g[a] != {} && a in users
    ensures (x in users && x !in g && (forall j :: 0 <= j < |users| && users[j] in g ==> x !in g[users[j]]))
      <==> (x in users && (x !in g || g[x] == {}) && (forall a :: a in g ==> x !in g[a]))
  {
    if x in users && x !in g && (forall j :: 0 <= j < |users| && users[j] in g ==> x !in g[users[j]]) {
      forall a | a in g
        ensures x !in g[a]
      {
        var j :| 0 <= j < |users| && users[j] == a;
      }
    }
  }

  /** `users_to_remove[USERS_MAX_ISOLATED:]`: everything past the first
      `UsersMaxIsolated` entries of the shuffled list. */
  function ExcessIsolated(order: seq<Id>): (r: seq<Id>)
    ensures |order| <= UsersMaxIsolated ==> r == []
    ensures |order| > UsersMaxIsolated ==> |r| == |order| - UsersMaxIsolated
    ensures forall j :: 0 <= j < |r| ==> r[j] == order[UsersMaxIsolated + j]
  {
    if |order| <= UsersMaxIsolated then [] else order[UsersMaxIsolated..]
  }

  /** Delete each listed user in turn, ignoring `UserNotFound` (the call
      is wrapped in `suppress(DbUserNotFoundError)`). */
  function DeleteUsersSuppressing(db: Db, admin: string, ids: seq<Id>): (r: Db)
    ensures r.users.Keys <= db.users.Keys
    ensures forall v :: v in r.users ==> r.users[v].email == db.users[v].email
    ensures forall v :: v in db.users && v !in ids ==> v in r.users
    ensures forall v :: v in ids && v in r.users ==> db.users[v].email == admin
    decreases |ids|
  {
    if |ids| == 0 then db
    else
      var db1 := match Users.DeleteUser(db, admin, ids[0]) {
        case Ok(d) => d
        case Err(_) => db
      };
      assert forall v :: v in ids[1..] ==> v in ids;
      DeleteUsersSuppressing(db1, admin, ids[1..])
  }

  /** The pruning step of `populate`: of the isolated users, in shuffled
      order, all past the first `UsersMaxIsolated` are deleted (the admin
      account refuses deletion and stays), and the rest stay. */
  function PruneIsolated(db: Db, admin: string, order: seq<Id>): (r: Db)
    requires Distinct(order)
    ensures r.users.Keys <= db.users.Keys
    ensures forall j :: 0 <= j < |order| && j < UsersMaxIsolated && order[j] in db.users ==> order[j] in r.users
    ensures forall j :: UsersMaxIsolated <= j < |order| && order[j] in r.users ==> db.users[order[j]].email == admin
    ensures forall v :: v in db.users && v !in order ==> v in r.users
    ensures order == [] ==> r == db
  {
    var excess := ExcessIsolated(order);
    forall j | 0 <= j < |order| && j < UsersMaxIsolated
      ensures order[j] !in excess
    {
      forall m | 0 <= m < |excess|
        ensures excess[m] != order[j]
      {
        assert excess[m] == order[UsersMaxIsolated + m];
      }
    }
    forall j | UsersMaxIsolated <= j < |order|
      ensures order[j] in excess
    {
      assert excess[j - UsersMaxIsolated] == order[j];
    }
    DeleteUsersSuppressing(db, admin, excess)
  }

  /** The users a run of `DeleteUsersSuppressing` actually removes: the
      listed ids that are stored and are not the admin account. */
  function Doomed(db: Db, admin: string, ids: seq<Id>): (r: set<Id>)
    ensures forall v :: v in r <==> v in ids && v in db.users && db.users[v].email != admin
  {
    set v | v in ids && v in db.users && db.users[v].email != admin
  }

  /** Deleting users one by one with `UserNotFound` suppressed is the single
      cascade for the users that could be deleted: every surviving user loses
      only the deleted ids from its list, and exactly the posts and comments
      tied to a deleted user go. */
  lemma {:induction false} DeleteUsersSuppressingIsCascade(db: Db, admin: string, ids: seq<Id>)
    ensures DeleteUsersSuppressing(db, admin, ids) == Users.CascadeDelete(db, Doomed(db, admin, ids))
    decreases |ids|
  {
    if |ids| == 0 {
      Users.CascadeNothing(db);
      assert Doomed(db, admin, ids) == {};
    } else {
      var u := ids[0];
      match Users.DeleteUser(db, admin, u) {
        case Ok(d) =>
          Users.DeleteUserIsCascade(db, admin, u);
          DeleteUsersSuppressingIsCascade(d, admin, ids[1..]);
          Users.CascadeTwice(db, {u}, Doomed(d, admin, ids[1..]));
          DoomedAfterDelete(db, admin, ids);
        case Err(_) =>
          DeleteUsersSuppressingIsCascade(db, admin, ids[1..]);
          DoomedAfterRefusal(db, admin, ids);
      }
    }
  }

  /** A user that was deleted joins the ones the rest of the list removes. */
  lemma DoomedAfterDelete(db: Db, admin: string, ids: seq<Id>)
    requires |ids| > 0 && Users.DeleteUser(db, admin, ids[0]).Ok?
    ensures {ids[0]} + Doomed(Users.DeleteUser(db, admin, ids[0]).value, admin, ids[1..]) == Doomed(db, admin, ids)
  {
    assert forall v :: v in ids <==> v == ids[0] || v in ids[1..];
  }

  /** A refused deletion adds nothing to the users the list removes. */
  lemma DoomedAfterRefusal(db: Db, admin: string, ids: seq<Id>)
    requires |ids| > 0 && Users.DeleteUser(db, admin, ids[0]).Err?
    ensures Doomed(db, admin, ids[1..]) == Doomed(db, admin, ids)
  {
    assert forall v :: v in ids <==> v == ids[0] || v in ids[1..];
  }

  /** Deleting a list of users keeps a consistent store consistent and its
      e-mails unique. */
  lemma DeleteUsersSuppressingPreservesInvariants(db: Db, admin: string, ids: seq<Id>)
    requires Consistent(db) && UniqueEmails(db)
    ensures Consistent(DeleteUsersSuppressing(db, admin, ids)) && UniqueEmails(DeleteUsersSuppressing(db, admin, ids))
  {
    DeleteUsersSuppressingIsCascade(db, admin, ids);
    Users.CascadePreservesInvariants(db, Doomed(db, admin, ids));
  }

  /** The pruning step is the cascade for the excess isolated users that are
      not the admin account. */
  lemma PruneIsolatedIsCascade(db: Db, admin: string, order: seq<Id>)
    requires Distinct(order)
    ensures PruneIsolated(db, admin, order) == Users.CascadeDelete(db, Doomed(db, admin, ExcessIsolated(order)))
  {
    DeleteUsersSuppressingIsCascade(db, admin, ExcessIsolated(order));
  }

  /** Pruning keeps a consistent store consistent and its e-mails unique. */
  lemma PruneIsolatedPreservesInvariants(db: Db, admin: string, order: seq<Id>)
    requires Distinct(order)
    requires Consistent(db) && UniqueEmails(db)
    ensures Consistent(PruneIsolated(db, admin, order)) && UniqueEmails(PruneIsolated(db, admin, order))
  {
    PruneIsolatedIsCascade(db, admin, order);
    Users.CascadePreservesInvariants(db, Doomed(db, admin, ExcessIsolated(order)));
  }
}
