/**
  The per-cell transition rule of one automaton step, and the toroidal
  4-neighbourhood it reads.  A step is the sequence of masked overwrites
  regrowth by band, clamp beyond the skin, vessel sprouting, necrosis and
  scar formation, every test made against the pre-step grid.
 */
module Transition {
  import opened Parameters

  /**
    The band label of a cell at squared distance d2: the skin, muscle and
    bone writes in that order, inner bands overwriting outer ones, and the
    region beyond the skin cleared last.
   */
  function Band(d2: int): (r: int)
    ensures r == Bone <==> d2 <= BoneSq
    ensures r == Muscle <==> BoneSq < d2 <= MuscleSq
    ensures r == Skin <==> MuscleSq < d2 <= SkinSq
    ensures r == Empty <==> SkinSq < d2
  {
    var v1 := if d2 <= SkinSq then Skin else Empty;
    var v2 := if d2 <= MuscleSq then Muscle else v1;
    var v3 := if d2 <= BoneSq then Bone else v2;
    if SkinSq < d2 then Empty else v3
  }

  // ---------------------------------------------------------------------
  // Toroidal neighbours: each is the grid rolled by one place along an axis.
  // ---------------------------------------------------------------------

  /** The grid rolled by -1 along rows: the cell one row further down, wrapping. */
  function Up(g: array2<int>, i: int, j: int): (r: int)
    reads g
    requires 0 <= i < g.Length0 && 0 <= j < g.Length1
    ensures r == g[if i == g.Length0 - 1 then 0 else i + 1, j]
  {
    g[(i + 1) % g.Length0, j]
  }

  /** The grid rolled by +1 along rows: the cell one row further up, wrapping. */
  function Down(g: array2<int>, i: int, j: int): (r: int)
    reads g
    requires 0 <= i < g.Length0 && 0 <= j < g.Length1
    ensures r == g[if i == 0 then g.Length0 - 1 else i - 1, j]
  {
    g[(i - 1) % g.Length0, j]
  }

  /** The grid rolled by -1 along columns: the next column, wrapping. */
  function Left(g: array2<int>, i: int, j: int): (r: int)
    reads g
    requires 0 <= i < g.Length0 && 0 <= j < g.Length1
    ensures r == g[i, if j == g.Length1 - 1 then 0 else j + 1]
  {
    g[i, (j + 1) % g.Length1]
  }

  /** The grid rolled by +1 along columns: the previous column, wrapping. */
  function Right(g: array2<int>, i: int, j: int): (r: int)
    reads g
    requires 0 <= i < g.Length0 && 0 <= j < g.Length1
    ensures r == g[i, if j == 0 then g.Length1 - 1 else j - 1]
  {
    g[i, (j - 1) % g.Length1]
  }

  /** What the rule sees of one cell: its label, its two neighbour tests, its mask bit and distance. */
  datatype CellView = CellView(state: int, hasNeighbor: bool, nearVessel: bool, masked: bool, d2: int)

  /** The three random draws of one cell in one step. */
  datatype Draws = Draws(dice: real, necrosis: real, scar: real)

  predicate SameShape(g: array2<int>, mask: array2<bool>, dist: array2<int>) {
    mask.Length0 == g.Length0 && mask.Length1 == g.Length1 &&
    dist.Length0 == g.Length0 && dist.Length1 == g.Length1
  }

  /**
    The view of cell (i, j) of the pre-step grid g: a living neighbour is one
    with a positive label, a vessel neighbour one labelled Vessel.
   */
  function View(g: array2<int>, mask: array2<bool>, dist: array2<int>, i: int, j: int): (r: CellView)
    reads g, mask, dist
    requires SameShape(g, mask, dist)
    requires 0 <= i < g.Length0 && 0 <= j < g.Length1
    ensures r.state == g[i, j] && r.masked == mask[i, j] && r.d2 == dist[i, j]
    ensures r.nearVessel <==> Vessel in {Up(g, i, j), Down(g, i, j), Left(g, i, j), Right(g, i, j)}
    ensures r.nearVessel ==> r.hasNeighbor
    ensures IsLabel(Up(g, i, j)) && IsLabel(Down(g, i, j)) && IsLabel(Left(g, i, j)) && IsLabel(Right(g, i, j)) ==>
      (r.hasNeighbor <==> Up(g, i, j) != Empty || Down(g, i, j) != Empty || Left(g, i, j) != Empty || Right(g, i, j) != Empty)
  {
    var up, down, left, right := Up(g, i, j), Down(g, i, j), Left(g, i, j), Right(g, i, j);
    CellView(g[i, j],
             up > 0 || down > 0 || left > 0 || right > 0,
             up == Vessel || down == Vessel || left == Vessel || right == Vessel,
             mask[i, j],
             dist[i, j])
  }

  // ---------------------------------------------------------------------
  // The four rule masks, each tested against the pre-step label.
  // ---------------------------------------------------------------------

  predicate Grow(c: CellView, dice: real, p: Rates) {
    c.state == Empty && c.hasNeighbor && c.masked && dice < p.tissueGrowth
  }

  predicate VesselGrow(c: CellView, dice: real, p: Rates) {
    c.state == Empty && c.nearVessel && c.masked && dice < p.vesselGrowth
  }

  predicate Death(c: CellView, draw: real, p: Rates) {
    c.state == Muscle && !c.nearVessel && c.masked && draw < p.necrosis
  }

  predicate ScarForms(c: CellView, draw: real, p: Rates) {
    c.state == Necrosis && draw < p.scarFormation
  }

  /**
    The label a cell holds after one step: start from its pre-step label,
    then apply the masked writes in program order; a later write wins.
   */
  function NextLabel(c: CellView, d: Draws, p: Rates): (r: int)
    // every label written is a label
    ensures IsLabel(c.state) ==> IsLabel(r)
    // an empty cell regrows the tissue of its own band; sprouting overrides it
    ensures c.state == Empty ==>
      r == (if VesselGrow(c, d.dice, p) then Vessel
            else if Grow(c, d.dice, p) && c.d2 <= SkinSq then Band(c.d2)
            else Empty)
    // muscle dies, or is cleared beyond the skin, or stays
    ensures c.state == Muscle ==>
      r == (if Death(c, d.necrosis, p) then Necrosis else if SkinSq < c.d2 then Empty else Muscle)
    // necrosis scars, or is cleared beyond the skin, or stays
    ensures c.state == Necrosis ==>
      r == (if ScarForms(c, d.scar, p) then Scar else if SkinSq < c.d2 then Empty else Necrosis)
    // every other label is kept inside the skin and cleared outside it
    ensures c.state !in {Empty, Muscle, Necrosis} ==>
      r == (if SkinSq < c.d2 then Empty else c.state)
    // an unmasked empty cell stays empty
    ensures c.state == Empty && !c.masked ==> r == Empty
    // a cell that was muscle before the step is not scar after it
    ensures c.state == Muscle ==> r != Scar
    // beyond the skin only sprouting leaves a non-empty cell, unless muscle or necrosis was there
    ensures SkinSq < c.d2 && c.state != Muscle && c.state != Necrosis ==>
      r == (if VesselGrow(c, d.dice, p) then Vessel else Empty)
    // with every rate zero and non-negative draws only the clamp acts
    ensures p == Zero && 0.0 <= d.dice && 0.0 <= d.necrosis && 0.0 <= d.scar ==>
      r == (if SkinSq < c.d2 then Empty else c.state)
  {
    var grow := Grow(c, d.dice, p);
    var v1 := if grow && c.d2 <= BoneSq then Bone else c.state;
    var v2 := if grow && c.d2 <= MuscleSq && BoneSq < c.d2 then Muscle else v1;
    var v3 := if grow && c.d2 <= SkinSq && MuscleSq < c.d2 then Skin else v2;
    var v4 := if v3 != Empty && SkinSq < c.d2 then Empty else v3;
    var v5 := if VesselGrow(c, d.dice, p) then Vessel else v4;
    var v6 := if Death(c, d.necrosis, p) then Necrosis else v5;
    if ScarForms(c, d.scar, p) then Scar else v6
  }

  /** The shapes of a grid, its mask, its distances and the three draw matrices agree. */
  predicate StepShape(g: array2<int>, mask: array2<bool>, dist: array2<int>,
                      dice: array2<real>, necrosisDraw: array2<real>, scarDraw: array2<real>) {
    SameShape(g, mask, dist) &&
    dice.Length0 == g.Length0 && dice.Length1 == g.Length1 &&
    necrosisDraw.Length0 == g.Length0 && necrosisDraw.Length1 == g.Length1 &&
    scarDraw.Length0 == g.Length0 && scarDraw.Length1 == g.Length1
  }

  /** The label of cell (i, j) after one step from the pre-step grid g with rates p. */
  function StepAt(g: array2<int>, mask: array2<bool>, dist: array2<int>,
                  dice: array2<real>, necrosisDraw: array2<real>, scarDraw: array2<real>,
                  p: Rates, i: int, j: int): int
    reads g, mask, dist, dice, necrosisDraw, scarDraw
    requires StepShape(g, mask, dist, dice, necrosisDraw, scarDraw)
    requires 0 <= i < g.Length0 && 0 <= j < g.Length1
  {
    NextLabel(View(g, mask, dist, i, j), Draws(dice[i, j], necrosisDraw[i, j], scarDraw[i, j]), p)
  }

  /**
    One step keeps every cell a label, and keeps the region beyond the skin
    holding nothing but empty cells and vessels.
   */
  lemma StepKeepsEnvelope(g: array2<int>, mask: array2<bool>, dist: array2<int>,
                          dice: array2<real>, necrosisDraw: array2<real>, scarDraw: array2<real>,
                          p: Rates, i: int, j: int)
    requires StepShape(g, mask, dist, dice, necrosisDraw, scarDraw)
    requires 0 <= i < g.Length0 && 0 <= j < g.Length1
    requires IsLabel(g[i, j])
    requires SkinSq < dist[i, j] ==> g[i, j] == Empty || g[i, j] == Vessel
    ensures IsLabel(StepAt(g, mask, dist, dice, necrosisDraw, scarDraw, p, i, j))
    ensures SkinSq < dist[i, j] ==>
      StepAt(g, mask, dist, dice, necrosisDraw, scarDraw, p, i, j) == Empty ||
      StepAt(g, mask, dist, dice, necrosisDraw, scarDraw, p, i, j) == Vessel
  {
  }

  /**
    With the simulation's rates, a cell that sprouts a vessel also met the
    regrowth condition, since a vessel neighbour is a living neighbour and
    the sprouting threshold is below the regrowth threshold.
   */
  lemma SproutImpliesRegrowth(g: array2<int>, mask: array2<bool>, dist: array2<int>, i: int, j: int, dice: real)
    requires SameShape(g, mask, dist)
    requires 0 <= i < g.Length0 && 0 <= j < g.Length1
    ensures VesselGrow(View(g, mask, dist, i, j), dice, Default) ==> Grow(View(g, mask, dist, i, j), dice, Default)
  {
  }

  /**
    The neighbourhood wraps: a vessel in the last row is the neighbour of the
    cell in the same column of row 0, so that cell may sprout.
   */
  lemma WrapAround(g: array2<int>, mask: array2<bool>, dist: array2<int>, j: int)
    requires SameShape(g, mask, dist)
    requires 0 < g.Length0 && 0 <= j < g.Length1
    requires g[g.Length0 - 1, j] == Vessel
    ensures View(g, mask, dist, 0, j).nearVessel
  {
  }

  /**
    With the necrosis rate at 1, a grid that is all muscle, all injured and
    without vessels turns entirely to necrosis in one step, whatever the
    other rates, as long as the necrosis draws lie below 1.
   */
  lemma AllMuscleDies(g: array2<int>, mask: array2<bool>, dist: array2<int>,
                      dice: array2<real>, necrosisDraw: array2<real>, scarDraw: array2<real>,
                      p: Rates, i: int, j: int)
    requires StepShape(g, mask, dist, dice, necrosisDraw, scarDraw)
    requires 0 <= i < g.Length0 && 0 <= j < g.Length1
    requires forall a, b :: 0 <= a < g.Length0 && 0 <= b < g.Length1 ==> g[a, b] == Muscle && mask[a, b]
    requires p.necrosis == 1.0 && necrosisDraw[i, j] < 1.0
    ensures StepAt(g, mask, dist, dice, necrosisDraw, scarDraw, p, i, j) == Necrosis
  {
  }
}
