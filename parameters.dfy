/**
  The fixed parameters of the vascular regrowth automaton: grid geometry,
  the seven cell labels, the concentric tissue radii and the four transition
  probabilities.  Distances are compared squared so that every radius test
  is exact integer arithmetic.
 */
module Parameters {

  /** Default grid edge; the centre is derived from it, not from a model's own size. */
  const GridSize: int := 100
  const Center: int := GridSize / 2

  /** Cell labels 0..6. */
  const Empty: int := 0
  const Bone: int := 1
  const Muscle: int := 2
  const Skin: int := 3
  const Vessel: int := 4
  const Necrosis: int := 5
  const Scar: int := 6

  predicate IsLabel(v: int) {
    Empty <= v <= Scar
  }

  /** Ring radii and their squares. */
  const RadBone: int := 15
  const RadMuscle: int := 38
  const RadSkin: int := 42
  const BoneSq: int := RadBone * RadBone
  const MuscleSq: int := RadMuscle * RadMuscle
  const SkinSq: int := RadSkin * RadSkin

  /** Radius of the amputation cut and its square. */
  const CutRadius: int := 50
  const CutSq: int := CutRadius * CutRadius

  /** Probability that a muscle cell is seeded as a vessel at construction. */
  const VesselSeedRate: real := 0.08

  /** The four probabilities that drive one step of the automaton. */
  datatype Rates = Rates(tissueGrowth: real, vesselGrowth: real, necrosis: real, scarFormation: real)

  /** The rates the simulation runs with. */
  const Default: Rates := Rates(0.55, 0.10, 0.04, 0.20)

  /** Every rate switched off. */
  const Zero: Rates := Rates(0.0, 0.0, 0.0, 0.0)

  /** Squared Euclidean distance of cell (i, j) from the centre. */
  function SqDist(i: int, j: int): nat {
    (i - Center) * (i - Center) + (j - Center) * (j - Center)
  }
}
