# Vascular regrowth cellular automaton — Dafny model

This project models `VascularModel`, the core of a probabilistic cellular
automaton. It simulates tissue and vessel regrowth after an amputation on an
N×N grid. Every cell holds one of seven labels: Empty, Bone, Muscle, Skin,
Vessel, Necrosis and Scar (0..6).

- **Construction** lays down concentric bands around the fixed centre: bone
  inside, then muscle, then skin, with empty cells beyond. It then seeds
  vessels in the muscle band.
- **Amputation** clears a wedge of cells to Empty and sets their injury-mask bits.
- **One step** computes a fresh buffer from the pre-step grid and then replaces
  the grid with it. The buffer gets these masked writes, in this order:
  1. regrowth of each cell's own band tissue;
  2. a clamp that clears cells beyond the skin radius;
  3. vessel sprouting;
  4. necrosis;
  5. scar formation.

The model has four modules:

- `Parameters` (`parameters.dfy`): the grid size and the centre, the labels,
  the radii, the seed rate and the four transition rates. `Rates` bundles the
  four rates. `Default` holds the simulation's values and `Zero` switches
  every rate off.
- `Transition` (`transition.dfy`): the rule itself, as pure functions.
  - `Band` gives the band label each cell regrows.
  - `Up`, `Down`, `Left` and `Right` are the toroidal neighbours, each the grid
    rolled by one place.
  - `View` is what one cell's rule reads: its label, whether it has a living
    neighbour, whether it is next to a vessel, its mask bit and its distance.
  - `Grow`, `VesselGrow`, `Death` and `ScarForms` are the four rule masks.
  - `NextLabel` is the sequence of overwrites on one cell. Its contract states
    the resulting rule table, label by label.
- `Vascular` (`vascular.dfy`): the class `VascularModel`.
  - `grid` is replaced on each step.
  - `injuryMask` is updated in place.
  - `dist` holds squared distances and is fixed at construction.
  - `Valid()` is the class invariant. It says the shapes agree, `dist` holds
    the squared distances, every cell holds a label, and beyond the skin a cell
    is Empty or Vessel.
- `Stats` (`stats.dfy`): the count of Scar cells shown in each frame title,
  computed by a loop and specified by a recursive count.

Modelling choices:

- **Distances.** They are squared integers: `d ≤ R` becomes `d2 ≤ R*R` and
  `d < 50` becomes `d2 < 2500`. For integer `d2` these agree with the
  floating-point square root, because the root is correctly rounded and
  monotone.
- **Centre.** The centre is `GridSize / 2 = 50` whatever the model's own size
  is, as in the source.
- **Random draws.** Every `np.random.random` matrix becomes an `array2<real>`
  argument: `seedDraw` for construction, and `dice`, `necrosisDraw` and
  `scarDraw` for a step. The one `dice` matrix drives both regrowth and
  sprouting, as in the source.
- **Fused writes.** Each masked write reads the pre-step grid (the cell and
  its four neighbours) and only the same cell of the buffer. The pre-step
  grid is never written. So the methods apply all writes cell by cell in one
  loop, and `Band`/`NextLabel` keep the writes in their source order. The
  result is the same as a pass per write.
- **Scar formation.** It tests the pre-step grid (`g == NECROSIS`), so a cell
  made Necrosis in a step cannot turn to Scar in that step.
- **Cells beyond the skin.** The clamp runs before vessel sprouting, so a
  Vessel can stand beyond the skin radius for one step. The invariant kept is
  Empty or Vessel, stated in `Valid()`.
- **Construction parameters.** The code does not validate them, so the model
  adds no error conditions.
- **Shared draw.** The code uses one shared draw for regrowth and sprouting,
  and so does the model.

## Model

| member | source | states |
|---|---|---|
| `Transition.Band` | Vascular_CA.py:36-39 | The overwriting skin, muscle and bone writes, then the clear beyond the skin, give exactly the partition: Bone iff d2 ≤ 15², Muscle iff 15² < d2 ≤ 38², Skin iff 38² < d2 ≤ 42², Empty iff d2 > 42² |
| `Transition.Up` | Vascular_CA.py:56 | `roll(g, -1, 0)` at (i, j) is the cell in row i+1, with the last row wrapping to row 0 |
| `Transition.Down` | Vascular_CA.py:57 | `roll(g, 1, 0)` at (i, j) is the cell in row i-1, with row 0 wrapping to the last row |
| `Transition.Left` | Vascular_CA.py:58 | `roll(g, -1, 1)` at (i, j) is the cell in column j+1, with the last column wrapping to column 0 |
| `Transition.Right` | Vascular_CA.py:59 | `roll(g, 1, 1)` at (i, j) is the cell in column j-1, with column 0 wrapping to the last column |
| `Transition.View` | Vascular_CA.py:65-69 | The view carries the cell's pre-step label, mask bit and distance. Near-vessel holds iff one of the four toroidal neighbours is Vessel. Near-vessel implies a living neighbour. For labelled neighbours, a living neighbour is one that is not Empty |
| `Transition.NextLabel` | Vascular_CA.py:64-92 | The rule table, tested against the pre-step label. Labels stay in 0..6. Empty becomes Vessel if sprouting fires, else its own band tissue if regrowth fires inside the skin, else stays Empty. An unmasked Empty cell stays Empty. Muscle becomes Necrosis iff masked, with no vessel neighbour and a necrosis draw below the rate; otherwise it stays Muscle, or is cleared beyond the skin. Necrosis becomes Scar iff its scar draw is below the rate. Bone, Skin, Vessel and Scar keep their label inside the skin. Muscle never becomes Scar in one step. Beyond the skin a non-Muscle, non-Necrosis cell ends Empty unless sprouting fired. With all rates zero and non-negative draws, only the clamp acts |
| `Transition.StepKeepsEnvelope` | Vascular_CA.py:74-92 | One step maps a labelled cell to a label. Beyond the skin it maps Empty or Vessel to Empty or Vessel |
| `Transition.SproutImpliesRegrowth` | Vascular_CA.py:74-82 | With the simulation's rates (0.10 ≤ 0.55), vessel sprouting on a cell implies that the regrowth condition also held on it for the same shared draw |
| `Transition.WrapAround` | Vascular_CA.py:57-69 | A Vessel in the last row makes the cell in the same column of row 0 near a vessel |
| `Transition.AllMuscleDies` | Vascular_CA.py:86-88 | With necrosis rate 1 and necrosis draws below 1, every cell of an all-Muscle, fully injured, vessel-free grid is Necrosis after one step, whatever the other rates |
| `Vascular.VascularModel.constructor` | Vascular_CA.py:27-44 | The mask is all false. `dist` holds the squared distances. Each cell is its band label, except that a muscle cell whose seed draw is below 0.08 is Vessel. So d2 ≤ 15² is Bone, 38² < d2 ≤ 42² is Skin, d2 > 42² is Empty, the muscle band is Muscle or Vessel, and Vessel appears only there |
| `Vascular.VascularModel.Amputate` | Vascular_CA.py:46-52 | Every cell of the wedge within d2 < 2500 becomes Empty with its mask bit set. Every other cell keeps its label and mask bit. The class invariant is kept |
| `Vascular.AmputateTwice` | Vascular_CA.py:46-52 | Two amputations with the same wedge have exactly the effect of one |
| `Vascular.VascularModel.Update` | Vascular_CA.py:62-94 | The grid is replaced by a fresh buffer whose every cell is `NextLabel` of the pre-step grid's view with the simulation's rates. The mask and distances are unchanged. The class invariant is kept: labels in 0..6, and beyond the skin only Empty or Vessel |
| `Stats.ScarArea` | Vascular_CA.py:134 | The loop's result equals the number of Scar cells of the grid, and is at most the number of cells |
| `Stats.CountZeroIff` | Vascular_CA.py:134 | The count of a label is zero exactly when no cell holds that label |

## Left out

- Colour map, legend and figure setup (Vascular_CA.py:96-126): presentation only.
- The `animate` driver, the animation object, the injury-frame timing, the frame
  titles and the GIF output (Vascular_CA.py:128-149): a display and I/O loop.
  Only the scar count it shows is modelled. The `STEPS` and `INJURY_FRAME`
  constants serve that loop alone.
- The random number generator: each draw matrix is an argument. The methods do
  not require the draws to lie in [0, 1). Only the zero-rate clause of
  `NextLabel` needs non-negative draws.
- The angle test `abs(arctan2(y - C, x - C)) < 0.5` (Vascular_CA.py:48-49):
  floating-point trigonometry. It is the argument `wedge`, a predicate on the
  cell's offset from the centre, conjoined with d2 < 2500.
- Floating-point distances (Vascular_CA.py:33): `dist` holds the exact squared
  distance instead, which gives the same answer to every radius comparison.
- Separate whole-grid passes for each masked write: they are fused per cell
  (see above), which cannot change any result because the pre-step grid is never
  written and each write reads only its own cell of the buffer.
- A negative grid size: `size` is a `nat`, so the model cannot be built with one.
  In the source a negative size never gets that far, because `np.zeros((size, size))`
  (Vascular_CA.py:29) raises.
