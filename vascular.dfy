/**
  The vascular model: an N x N grid of cell labels, the injury mask that
  says which cells take part in regrowth and death, and the precomputed
  squared distance of every cell from the centre.
 */
module Vascular {
  import opened Parameters
  import opened Transition

  /** Cell (i, j) lies in the amputation wedge: its offset is in the wedge and it is within the cut radius. */
  predicate InCut(wedge: (int, int) -> bool, i: int, j: int) {
    wedge(i - Center, j - Center) && SqDist(i, j) < CutSq
  }

  /** The label a cell receives at construction: its band, with seeded muscle turned into vessel. */
  function InitialLabel(d2: int, draw: real): int {
    if Band(d2) == Muscle && draw < VesselSeedRate then Vessel else Band(d2)
  }

  class VascularModel {
    const size: nat
    var grid: array2<int>
    const injuryMask: array2<bool>
    /** Squared distance from the centre, fixed at construction. */
    const dist: array2<int>

    /** Shapes agree, distances are the squared distances, every cell holds a label,
        and beyond the skin a cell is either empty or a vessel that has just sprouted. */
    ghost predicate Valid()
      reads this, grid, injuryMask, dist
    {
      && grid.Length0 == size && grid.Length1 == size
      && SameShape(grid, injuryMask, dist)
      && grid != dist
      && (forall i, j :: 0 <= i < size && 0 <= j < size ==> dist[i, j] == SqDist(i, j))
      && (forall i, j :: 0 <= i < size && 0 <= j < size ==> IsLabel(grid[i, j]))
      && (forall i, j :: 0 <= i < size && 0 <= j < size && SkinSq < dist[i, j] ==>
            grid[i, j] == Empty || grid[i, j] == Vessel)
    }

    /** Lay down the concentric bands and seed vessels in the muscle where seedDraw is below the seed rate. */
    constructor (size: nat, seedDraw: array2<real>)
      requires seedDraw.Length0 == size && seedDraw.Length1 == size
      ensures Valid() && fresh(grid) && fresh(injuryMask) && fresh(dist)
      ensures this.size == size
      ensures forall i, j :: 0 <= i < size && 0 <= j < size ==> !injuryMask[i, j]
      ensures forall i, j :: 0 <= i < size && 0 <= j < size ==>
        grid[i, j] == InitialLabel(SqDist(i, j), seedDraw[i, j])
      ensures forall i, j :: 0 <= i < size && 0 <= j < size ==>
        (SqDist(i, j) <= BoneSq ==> grid[i, j] == Bone) &&
        (BoneSq < SqDist(i, j) <= MuscleSq ==> grid[i, j] == Muscle || grid[i, j] == Vessel) &&
        (MuscleSq < SqDist(i, j) <= SkinSq ==> grid[i, j] == Skin) &&
        (SkinSq < SqDist(i, j) ==> grid[i, j] == Empty) &&
        (grid[i, j] == Vessel ==> BoneSq < SqDist(i, j) <= MuscleSq)
    {
      var g := new int[size, size]((i, j) => Empty);
      var m := new bool[size, size]((i, j) => false);
      var d := new int[size, size]((i, j) => SqDist(i, j));
      var i := 0;
      while i < size
        invariant 0 <= i <= size
        invariant forall a, b :: 0 <= a < i && 0 <= b < size ==> g[a, b] == InitialLabel(SqDist(a, b), seedDraw[a, b])
        modifies g
      {
        var j := 0;
        while j < size
          invariant 0 <= j <= size
          invariant forall a, b :: 0 <= a < i && 0 <= b < size ==> g[a, b] == InitialLabel(SqDist(a, b), seedDraw[a, b])
          invariant forall b :: 0 <= b < j ==> g[i, b] == InitialLabel(SqDist(i, b), seedDraw[i, b])
          modifies g
        {
          var v := Band(d[i, j]);
          if v == Muscle && seedDraw[i, j] < VesselSeedRate {
            v := Vessel;
          }
          g[i, j] := v;
          j := j + 1;
        }
        i := i + 1;
      }
      this.size := size;
      grid := g;
      injuryMask := m;
      dist := d;
    }

    /** Clear the wedge to empty and mark it injured; nothing outside the wedge changes. */
    method Amputate(wedge: (int, int) -> bool)
      requires Valid()
      modifies grid, injuryMask
      ensures Valid()
      ensures forall i, j :: 0 <= i < size && 0 <= j < size ==>
        grid[i, j] == (if InCut(wedge, i, j) then Empty else old(grid[i, j])) &&
        injuryMask[i, j] == (InCut(wedge, i, j) || old(injuryMask[i, j]))
    {
      var i := 0;
      while i < size
        invariant 0 <= i <= size
        invariant Valid()
        invariant forall a, b :: 0 <= a < size && 0 <= b < size ==>
          grid[a, b] == (if a < i && InCut(wedge, a, b) then Empty else old(grid[a, b])) &&
          injuryMask[a, b] == ((a < i && InCut(wedge, a, b)) || old(injuryMask[a, b]))
        modifies grid, injuryMask
      {
        var j := 0;
        while j < size
          invariant 0 <= j <= size
          invariant Valid()
          invariant forall a, b :: 0 <= a < size && 0 <= b < size ==>
            grid[a, b] == (if (a < i || (a == i && b < j)) && InCut(wedge, a, b) then Empty else old(grid[a, b])) &&
            injuryMask[a, b] == (((a < i || (a == i && b < j)) && InCut(wedge, a, b)) || old(injuryMask[a, b]))
          modifies grid, injuryMask
        {
          if wedge(i - Center, j - Center) && dist[i, j] < CutSq {
            grid[i, j] := Empty;
            injuryMask[i, j] := true;
          }
          j := j + 1;
        }
        i := i + 1;
      }
    }

    /**
      One step: every cell of a fresh buffer receives the transition of the
      pre-step grid's cell, using the simulation's rates, and the buffer
      replaces the grid.  The mask and the distances are left untouched.
     */
    method Update(dice: array2<real>, necrosisDraw: array2<real>, scarDraw: array2<real>)
      requires Valid()
      requires dice.Length0 == size && dice.Length1 == size
      requires necrosisDraw.Length0 == size && necrosisDraw.Length1 == size
      requires scarDraw.Length0 == size && scarDraw.Length1 == size
      modifies this
      ensures Valid() && fresh(grid)
      ensures unchanged(injuryMask) && unchanged(dist)
      ensures forall i, j :: 0 <= i < size && 0 <= j < size ==>
        grid[i, j] == StepAt(old(grid), injuryMask, dist, dice, necrosisDraw, scarDraw, Default, i, j)
    {
      var g := grid;
      var next := new int[size, size];
      var i := 0;
      while i < size
        invariant 0 <= i <= size
        invariant forall a, b :: 0 <= a < i && 0 <= b < size ==>
          next[a, b] == StepAt(g, injuryMask, dist, dice, necrosisDraw, scarDraw, Default, a, b)
        modifies next
      {
        StepRow(next, g, injuryMask, dist, dice, necrosisDraw, scarDraw, i);
        i := i + 1;
      }
      forall a, b | 0 <= a < size && 0 <= b < size
        ensures IsLabel(next[a, b])
        ensures SkinSq < dist[a, b] ==> next[a, b] == Empty || next[a, b] == Vessel
      {
        StepKeepsEnvelope(g, injuryMask, dist, dice, necrosisDraw, scarDraw, Default, a, b);
      }
      grid := next;
    }
  }

  /** Fill row i of the buffer next with the step of the pre-step grid g; the other rows keep their values. */
  method StepRow(next: array2<int>, g: array2<int>, mask: array2<bool>, dist: array2<int>,
                 dice: array2<real>, necrosisDraw: array2<real>, scarDraw: array2<real>, i: int)
    requires StepShape(g, mask, dist, dice, necrosisDraw, scarDraw)
    requires next.Length0 == g.Length0 && next.Length1 == g.Length1
    requires next != g && next != dist
    requires 0 <= i < g.Length0
    modifies next
    ensures forall a, b :: 0 <= a < next.Length0 && 0 <= b < next.Length1 ==>
      next[a, b] == if a == i then StepAt(g, mask, dist, dice, necrosisDraw, scarDraw, Default, a, b) else old(next[a, b])
  {
    var j := 0;
    while j < g.Length1
      invariant 0 <= j <= g.Length1
      invariant forall a, b :: 0 <= a < next.Length0 && 0 <= b < next.Length1 ==>
        next[a, b] == if a == i && b < j then StepAt(g, mask, dist, dice, necrosisDraw, scarDraw, Default, a, b) else old(next[a, b])
    {
      next[i, j] := StepAt(g, mask, dist, dice, necrosisDraw, scarDraw, Default, i, j);
      j := j + 1;
    }
  }

  /** Amputating twice leaves the model as amputating once does. */
  method AmputateTwice(m: VascularModel, wedge: (int, int) -> bool)
    requires m.Valid()
    modifies m.grid, m.injuryMask
    ensures m.Valid()
    ensures forall i, j :: 0 <= i < m.size && 0 <= j < m.size ==>
      m.grid[i, j] == (if InCut(wedge, i, j) then Empty else old(m.grid[i, j])) &&
      m.injuryMask[i, j] == (InCut(wedge, i, j) || old(m.injuryMask[i, j]))
  {
    m.Amputate(wedge);
    m.Amputate(wedge);
  }
}
