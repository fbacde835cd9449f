/** The layer-ordering binder (`MapOrder` in MapOrder.tsx): once the layers
    are mounted it keeps the listed ids that the engine knows and moves the
    `i`-th of them before the `j`-th, for every `i < j`, which stacks them in
    the listed order. */
module MapOrder {
  import opened Wrappers
  import opened Engine

  /** `ordering.filter(id => !!map.getLayer(id))`, with the engine's answer as
      the predicate `mounted`. */
  function ValidIdentifiers(ordering: seq<string>, mounted: string -> bool): (r: seq<string>)
    ensures forall x :: x in r <==> x in ordering && mounted(x)
    ensures |r| <= |ordering|
    decreases |ordering|
  {
    if |ordering| == 0 then []
    else
      var rest := ValidIdentifiers(ordering[1..], mounted);
      assert forall x :: x in ordering <==> x == ordering[0] || x in ordering[1..];
      if mounted(ordering[0]) then [ordering[0]] + rest else rest
  }

  /** The kept ids appear in the same relative order as in `ordering`. */
  lemma {:induction false} ValidIdentifiersKeepOrder(ordering: seq<string>, mounted: string -> bool, i: int, j: int)
    requires 0 <= i < j < |ValidIdentifiers(ordering, mounted)|
    ensures exists p, q :: (0 <= p < q < |ordering|
      && ordering[p] == ValidIdentifiers(ordering, mounted)[i]
      && ordering[q] == ValidIdentifiers(ordering, mounted)[j])
    decreases |ordering|
  {
    var v := ValidIdentifiers(ordering, mounted);
    var rest := ValidIdentifiers(ordering[1..], mounted);
    if !mounted(ordering[0]) {
      assert v == rest;
      ValidIdentifiersKeepOrder(ordering[1..], mounted, i, j);
      var p, q :| 0 <= p < q < |ordering[1..]| && ordering[1..][p] == rest[i] && ordering[1..][q] == rest[j];
      assert ordering[p + 1] == v[i] && ordering[q + 1] == v[j];
    } else if i == 0 {
      assert v == [ordering[0]] + rest;
      assert v[j] == rest[j - 1] && rest[j - 1] in rest;
      var q :| 0 <= q < |ordering[1..]| && ordering[1..][q] == rest[j - 1];
      assert ordering[0] == v[0] && ordering[q + 1] == v[j];
    } else {
      assert v == [ordering[0]] + rest;
      ValidIdentifiersKeepOrder(ordering[1..], mounted, i - 1, j - 1);
      var p, q :| 0 <= p < q < |ordering[1..]| && ordering[1..][p] == rest[i - 1] && ordering[1..][q] == rest[j - 1];
      assert ordering[p + 1] == v[i] && ordering[q + 1] == v[j];
    }
  }

  /** The moves of outer round `i`: `v[i]` before each later id. */
  function Row(v: seq<string>, i: nat): (r: seq<Effect>)
    requires i < |v|
    ensures |r| == |v| - i - 1
  {
    seq(|v| - i - 1, k requires 0 <= k < |v| - i - 1 => MoveLayer(v[i], v[i + 1 + k]))
  }

  /** The moves of the first `i` outer rounds. */
  function Rounds(v: seq<string>, i: nat): seq<Effect>
    requires i <= |v|
  {
    if i == 0 then [] else Rounds(v, i - 1) + Row(v, i - 1)
  }

  /** Where outer round `i` starts in the trace, for `n` ids. */
  function RowStart(n: nat, i: nat): nat
    requires i <= n
  {
    if i == 0 then 0 else RowStart(n, i - 1) + (n - i)
  }

  /** The place of the move of the pair `(a, b)` in the trace, for `n` ids. */
  function PairIndex(n: nat, a: nat, b: nat): nat
    requires a < b <= n
  {
    RowStart(n, a) + (b - a - 1)
  }

  /** Later rounds start later. */
  lemma {:induction false} RowStartMonotone(n: nat, a: nat, b: nat)
    requires a <= b <= n
    ensures RowStart(n, a) <= RowStart(n, b)
    decreases b - a
  {
    if a < b {
      RowStartMonotone(n, a, b - 1);
    }
  }

  /** The moves come in lexicographic order of their pairs: `(a, b)` before
      `(c, d)` whenever `a < c`, or `a == c` and `b < d`. */
  lemma PairIndexLexicographic(n: nat, a: nat, b: nat, c: nat, d: nat)
    requires a < b < n && c < d < n
    requires a < c || (a == c && b < d)
    ensures PairIndex(n, a, b) < PairIndex(n, c, d)
  {
    if a < c {
      RowStartMonotone(n, a + 1, c);
    }
  }

  /** Round `i` starts at `i * (2n - i - 1) / 2`. */
  lemma {:induction false} RowStartClosedForm(n: nat, i: nat)
    requires i <= n
    ensures 2 * RowStart(n, i) == i * (2 * n - i - 1)
  {
    if i > 0 {
      RowStartClosedForm(n, i - 1);
      assert (i - 1) * (2 * n - (i - 1) - 1) + 2 * (n - i) == i * (2 * n - i - 1);
    }
  }

  /** The first `i` rounds hold `RowStart(n, i)` moves. */
  lemma {:induction false} RoundsLength(v: seq<string>, i: nat)
    requires i <= |v|
    ensures |Rounds(v, i)| == RowStart(|v|, i)
  {
    if i > 0 {
      RoundsLength(v, i - 1);
    }
  }

  /** The move of the pair `(a, b)`, `a < b`, `a < i`, sits in the first `i`
      rounds at `RowStart(n, a) + (b - a - 1)`. */
  lemma {:induction false} PairAt(v: seq<string>, i: nat, a: nat, b: nat)
    requires i <= |v| && a < i && a < b < |v|
    ensures PairIndex(|v|, a, b) < |Rounds(v, i)|
    ensures Rounds(v, i)[PairIndex(|v|, a, b)] == MoveLayer(v[a], v[b])
  {
    RoundsLength(v, i - 1);
    var prev := Rounds(v, i - 1);
    var row := Row(v, i - 1);
    assert Rounds(v, i) == prev + row;
    if a == i - 1 {
      assert Rounds(v, i)[PairIndex(|v|, a, b)] == row[b - a - 1] == MoveLayer(v[a], v[b]);
    } else {
      PairAt(v, i - 1, a, b);
    }
  }

  /** `v[i]` before every later id, in index order: one outer round. */
  method MoveRound(v: seq<string>, i: nat) returns (moves: seq<Effect>)
    requires i < |v|
    ensures moves == Row(v, i)
  {
    moves := [];
    var j := i + 1;
    while j < |v|
      invariant i + 1 <= j <= |v|
      invariant moves == Row(v, i)[..j - i - 1]
    {
      moves := moves + [MoveLayer(v[i], v[j])];
      j := j + 1;
    }
  }

  /** The moves over the kept ids `v`: one `v[a]`-before-`v[b]` move for
      every pair `a < b`, at its lexicographic place, `n(n-1)/2` in all. */
  predicate PairwiseMoves(v: seq<string>, trace: seq<Effect>) {
    && |trace| == RowStart(|v|, |v|)
    && (forall a, b :: 0 <= a < b < |v| ==>
          PairIndex(|v|, a, b) < |trace|
          && trace[PairIndex(|v|, a, b)] == MoveLayer(v[a], v[b]))
    && (forall t :: 0 <= t < |trace| ==>
          && trace[t].MoveLayer?
          && trace[t].layerId in v && trace[t].beforeId in v)
  }

  /** The ordering callback, run once the layers are mounted. Without an
      engine or an ordering it does nothing; otherwise, over the mounted ids
      `v`, it moves `v[i]` before `v[j]` exactly once for every `i < j`, in
      lexicographic order of `(i, j)`, `n(n-1)/2` moves in all. */
  method Order(hasMap: bool, ordering: Option<seq<string>>, mounted: string -> bool) returns (trace: seq<Effect>)
    ensures !hasMap || ordering.None? ==> trace == []
    ensures hasMap && ordering.Some? ==> PairwiseMoves(ValidIdentifiers(ordering.value, mounted), trace)
    ensures hasMap && ordering.Some? ==>
      var n := |ValidIdentifiers(ordering.value, mounted)|; 2 * |trace| == n * (n - 1)
  {
    trace := [];
    if !hasMap || ordering.None? {
      return;
    }
    var v := ValidIdentifiers(ordering.value, mounted);
    var i := 0;
    while i < |v|
      invariant 0 <= i <= |v|
      invariant trace == Rounds(v, i)
    {
      var moves := MoveRound(v, i);
      trace := trace + moves;
      i := i + 1;
    }
    AllRounds(v);
    RoundsCount(v);
  }

  /** What the complete rounds over `v` hold: the count and the layout of the moves. */
  lemma AllRounds(v: seq<string>)
    ensures PairwiseMoves(v, Rounds(v, |v|))
  {
    var tr := Rounds(v, |v|);
    RoundsLength(v, |v|);
    assert forall a, b :: 0 <= a < b < |v| ==>
      PairIndex(|v|, a, b) < |tr| && tr[PairIndex(|v|, a, b)] == MoveLayer(v[a], v[b])
    by {
      forall a, b | 0 <= a < b < |v|
        ensures PairIndex(|v|, a, b) < |tr| && tr[PairIndex(|v|, a, b)] == MoveLayer(v[a], v[b])
      {
        PairAt(v, |v|, a, b);
      }
    }
    assert forall t :: 0 <= t < |tr| ==> tr[t].MoveLayer? && tr[t].layerId in v && tr[t].beforeId in v by {
      RoundsMoves(v, |v|);
    }
  }

  /** All rounds together hold `n(n-1)/2` moves. */
  lemma RoundsCount(v: seq<string>)
    ensures 2 * |Rounds(v, |v|)| == |v| * (|v| - 1)
  {
    var n := |v|;
    RoundsLength(v, n);
    RowStartClosedForm(n, n);
    assert 2 * n - n - 1 == n - 1;
  }

  /** Every move of the first `i` rounds moves one kept id before another. */
  lemma {:induction false} RoundsMoves(v: seq<string>, i: nat)
    requires i <= |v|
    ensures forall t :: 0 <= t < |Rounds(v, i)| ==>
      && Rounds(v, i)[t].MoveLayer?
      && Rounds(v, i)[t].layerId in v && Rounds(v, i)[t].beforeId in v
  {
    if i > 0 {
      RoundsMoves(v, i - 1);
      var row := Row(v, i - 1);
      assert forall k :: 0 <= k < |row| ==> row[k] == MoveLayer(v[i - 1], v[i + k]);
    }
  }
}
