/**
  The player-count histogram (`playerCounts` in Floodgate.js) and the two
  operations the harvest loop applies to it: folding one play into a cell and
  filling the empty cells with 0.

  The JavaScript array may have holes: assigning to an index past its end
  grows it and leaves every index in between empty. The model keeps that shape
  as a sequence of optional counts, where `None` is an empty cell.
*/
module Histogram {
  import opened Options

  /** One play as the loop reads it: its quantity and its number of players. */
  datatype Play = Play(quantity: nat, players: nat)

  /** Player count -> cumulative quantity; `None` is a hole. */
  type Counts = seq<Option<nat>>

  /** The number held at cell `n`, an empty cell or one past the end read as 0. */
  function Cell(h: Counts, n: nat): nat
  {
    if n < |h| && h[n].Some? then h[n].value else 0
  }

  /** No hole anywhere below the length. */
  predicate Filled(h: Counts)
  {
    forall i :: 0 <= i < |h| ==> h[i].Some?
  }

  function Max(a: nat, b: nat): nat
  {
    if a < b then b else a
  }

  /**
    `playerCounts[n] = isNaN(c) ? q : c + q`: cell `n` gets its old number
    (0 for a hole) plus `q`; the array grows to length n + 1 when `n` was past
    its end, with holes between the old end and `n`; nothing else changes.
  */
  function Fold(h: Counts, n: nat, q: nat): (r: Counts)
    ensures |r| == Max(|h|, n + 1)
    ensures r[n] == Some(Cell(h, n) + q)
    ensures forall i :: 0 <= i < |h| && i != n ==> r[i] == h[i]
    ensures forall i :: |h| <= i < n ==> r[i] == None
  {
    if n < |h| then h[n := Some(Cell(h, n) + q)]
    else h + seq(n - |h|, _ => None) + [Some(q)]
  }

  /** The plays of one page folded in order, first play first. */
  function FoldPlays(h: Counts, plays: seq<Play>): (r: Counts)
    ensures |r| == Max(|h|, Reach(plays))
    decreases |plays|
  {
    if plays == [] then h
    else FoldPlays(Fold(h, plays[0].players, plays[0].quantity), plays[1..])
  }

  /** Total quantity of the plays that had `n` players. */
  function Sum(plays: seq<Play>, n: nat): nat
    decreases |plays|
  {
    if plays == [] then 0
    else (if plays[0].players == n then plays[0].quantity else 0) + Sum(plays[1..], n)
  }

  /** No play of the page has `n` players. */
  predicate NotCounted(plays: seq<Play>, n: nat)
  {
    forall k :: 0 <= k < |plays| ==> plays[k].players != n
  }

  /** One more than the largest player count among the plays; 0 for no plays. */
  function Reach(plays: seq<Play>): nat
    decreases |plays|
  {
    if plays == [] then 0 else Max(plays[0].players + 1, Reach(plays[1..]))
  }

  /** Every hole becomes 0; every number, and the length, stays. */
  function Fill(h: Counts): (r: Counts)
    ensures |r| == |h| && Filled(r)
    ensures forall i :: 0 <= i < |h| && h[i].Some? ==> r[i] == h[i]
    ensures forall i :: 0 <= i < |h| && h[i].None? ==> r[i] == Some(0)
  {
    seq(|h|, i requires 0 <= i < |h| => if h[i].Some? then h[i] else Some(0))
  }

  /** Folding one play adds its quantity to its own cell and to no other. */
  lemma FoldCell(h: Counts, n: nat, q: nat, m: nat)
    ensures Cell(Fold(h, n, q), m) == Cell(h, m) + (if m == n then q else 0)
  {
  }

  /** Folding a page adds, in every cell, the page's quantity for that player count. */
  lemma {:induction false} FoldPlaysCell(h: Counts, plays: seq<Play>, n: nat)
    ensures Cell(FoldPlays(h, plays), n) == Cell(h, n) + Sum(plays, n)
    decreases |plays|
  {
    if plays != [] {
      var p := plays[0];
      FoldCell(h, p.players, p.quantity, n);
      FoldPlaysCell(Fold(h, p.players, p.quantity), plays[1..], n);
    }
  }

  /**
    Folding a page grows the array exactly to cover the largest player count
    seen, and leaves every existing cell that no play of the page counts into
    exactly as it was (a hole stays a hole).
  */
  lemma {:induction false} FoldPlaysShape(h: Counts, plays: seq<Play>)
    ensures |FoldPlays(h, plays)| == Max(|h|, Reach(plays))
    ensures forall i :: 0 <= i < |h| && NotCounted(plays, i) ==> FoldPlays(h, plays)[i] == h[i]
    decreases |plays|
  {
    if plays != [] {
      var p := plays[0];
      var h' := Fold(h, p.players, p.quantity);
      FoldPlaysShape(h', plays[1..]);
      forall i | 0 <= i < |h| && NotCounted(plays, i)
        ensures FoldPlays(h, plays)[i] == h[i]
      {
        assert p.players != i;
        assert NotCounted(plays[1..], i) by {
          forall k | 0 <= k < |plays[1..]| ensures plays[1..][k].players != i {
            assert plays[1..][k] == plays[k + 1];
          }
        }
      }
    }
  }

  /** Gap filling never changes what a cell reads as. */
  lemma FillCell(h: Counts, n: nat)
    ensures Cell(Fill(h), n) == Cell(h, n)
  {
  }

  /** Gap filling is idempotent, and a histogram without holes is its own fill. */
  lemma FillIdempotent(h: Counts)
    ensures Fill(Fill(h)) == Fill(h)
    ensures Filled(h) ==> Fill(h) == h
  {
  }

  /**
    Folding a page with three 2-player plays and then a page with four
    2-player plays and one play of unknown player count, filling the gaps
    after each page, gives 1 play at count 0, none at count 1 and 7 at count 2.
  */
  lemma AggregationExample()
    ensures Fill(FoldPlays(Fill(FoldPlays([], [Play(3, 2)])), [Play(4, 2), Play(1, 0)]))
         == [Some(1), Some(0), Some(7)]
  {
    var a := Fill(FoldPlays([], [Play(3, 2)]));
    assert FoldPlays([], [Play(3, 2)]) == [None, None, Some(3)];
    assert a == [Some(0), Some(0), Some(3)];
    assert [Play(4, 2), Play(1, 0)][1..] == [Play(1, 0)];
    assert FoldPlays(a, [Play(4, 2), Play(1, 0)]) == [Some(1), Some(0), Some(7)];
  }
}
