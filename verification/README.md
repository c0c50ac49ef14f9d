# SRFInitUrel, modelled in Dafny

`SRFInitUrel` is an OpenFOAM utility that initialises the relative-velocity field
`Urel` of a single-rotating-frame (SRF) case at time 0. It takes the free-stream
velocity `UInf` from the first cell of the existing field and checks whether the
internal field is uniform; a non-uniform field gets one note. It then overwrites
every cell with `UInf - vel(cell centre)`. On every boundary patch that is not a
wall, it overwrites every face with `UInf - vel(face centre)`. Here `vel` is the
frame's rotational velocity. Wall patches keep their values. At a time past 0, or
when there is no `Urel` field, the utility does nothing.

Files:

- `vectors.dfy` (module `Vectors`): `Vec3` over exact reals, with sum,
  difference, dot product and cross product.
- `srf_model.dfy` (module `SrfModel`): one concrete frame velocity, rigid-body
  rotation `omega x (p - origin)`, and facts about it. `RigidBodyVelocity` and
  `Velocity` stand for `srf.velocity` as called at SRFInitUrel.C:87 and SRFInitUrel.C:99; what they
  satisfy is stated by `RigidBodyVelocityProperties` and `UnitZRotation`.
- `srf_init_urel.dfy` (module `SrfInitUrel`): the mesh geometry (patch names
  appear only in log lines and are not modelled), the field
  `VolVectorField` (a class whose internal values and per-patch boundary values
  are arrays updated in place), the uniformity scan, the internal and boundary
  overwrites, and the top-level `Calc`.

The frame velocity `srf.velocity` is passed to `Calc` as a pure function
`vel: Vec3 -> Vec3`. Header presence is a boolean input. Writing the field back is
the `Written` outcome together with the field object `Calc` returns.

## Model

| member | source | states |
|---|---|---|
| `Vectors.Sub` | SRFInitUrel.C:87 | adding `b` back to `a - b` gives `a`; the difference is zero exactly when the two vectors are equal |
| `SrfInitUrel.RelativeVelocity` | SRFInitUrel.C:87 | the relative velocity `UInf - vel(p)` plus the frame velocity at `p` is the free stream; it equals the free stream exactly when the frame does not move at `p` |
| `SrfInitUrel.RelativeField` | SRFInitUrel.C:87 | the field expression `UInf - srf.velocity(points)` has one value per point, and value `i` is the relative velocity at point `i` |
| `SrfInitUrel.CheckUniformity` | SRFInitUrel.C:74-84 | `UInf` is the first cell value; the field is only read; at most one note is printed; a note is printed exactly when some cell differs from `UInf`, and none exactly when the field is uniform |
| `SrfInitUrel.AssignInternal` | SRFInitUrel.C:86-87 | after the assignment, cell `i` holds `UInf - vel(C[i])` whatever it held before, and the cell count is unchanged |
| `SrfInitUrel.VolVectorField.UpdateBoundary` | SRFInitUrel.C:89-101 | every non-wall patch holds `UInf - vel(Cf[j])` at every face; wall patches keep their exact previous values; the internal field is not touched; every patch keeps its length |
| `SrfInitUrel.VolVectorField.Read` | SRFInitUrel.C:60-61 | the field is read with one value per cell and one value per face of every patch |
| `SrfInitUrel.Calc` | SRFInitUrel.C:41-112 | at a time past 0 the outcome is a skip and no field is built; without a `Urel` header the outcome is "no Urel" and no field is built; otherwise the field is read from the loaded values, `UInf` is the first loaded cell value, the note count is 0 or 1 and is 0 exactly for a uniform field, the internal field is the relative field at the cell centres, the boundary is the loaded boundary updated patch by patch, and that field is returned for writing |
| `SrfInitUrel.RelativeFieldUniform` | SRFInitUrel.C:76-87 | the rewritten internal field is uniform exactly when the frame velocity is the same at every cell centre |
| `SrfInitUrel.NoRotationKeepsFreeStream` | SRFInitUrel.C:87 | with zero angular velocity every cell of the rewritten field holds the free stream |
| `SrfInitUrel.ThreeCellField` | SRFInitUrel.C:87 | three cells at (0,0,0), (1,0,0), (0,1,0), free stream (10,0,0), frame velocities (0,0,0), (0,1,0), (-1,0,0): the cells hold (10,0,0), (10,-1,0), (11,0,0) |
| `SrfInitUrel.ThreeCellRotation` | SRFInitUrel.C:87 | unit-rate rotation about the z axis through the origin gives the three cells (0,0,0), (1,0,0), (0,1,0) the frame velocities (0,0,0), (0,1,0), (-1,0,0) that `ThreeCellField` assumes |
| `SrfInitUrel.BoundaryUpdateIdempotent` | SRFInitUrel.C:90-101 | the patch loop overwrites rather than accumulates, so a second run leaves the boundary as the first run left it |
| `SrfInitUrel.BoundaryUpdateDeterministic` | SRFInitUrel.C:90-101 | the same free stream, frame velocity, geometry and old boundary give the same new boundary |
| `SrfModel.RigidBodyVelocityProperties` | SRFInitUrel.C:87-99 | the rigid-body frame velocity is zero at the origin and perpendicular to both the angular velocity and the radius from the origin |
| `SrfModel.UnitZRotation` | SRFInitUrel.C:87-99 | unit-rate rotation about the z axis through the origin gives the point (x, y, z) the velocity (-y, x, 0), which supplies the frame velocities of `ThreeCellField` |

## Left out

- Reading and writing the case: `IOobject`, the header test and `Urel.write()`
  (SRFInitUrel.C:49-57, 104). Header presence is a boolean input. The values the
  field read would load are inputs of `Calc`, which turns them into a field only
  on the path where the source reads it. The write is the `Written` outcome
  together with the returned field.
- All `Info<<` log lines. The only one modelled is the "non-uniform internal field"
  note, as the count `notes`.
- Construction of the SRF model with `SRF::SRFModel::New` and its lookup by name in
  the object registry (SRFInitUrel.C:64-71), including a failure on a missing or
  malformed `SRFProperties`. `SRFModel.H` is not part of this model. The frame
  velocity is a parameter. `SrfModel.RigidBodyVelocity` is one instance of it, the
  textbook rigid-body formula, and the core never depends on it.
- Computing the mesh geometry (`mesh.C()`, `mesh.Cf()`). Cell centres and face
  centres are given sequences whose lengths match the field (`VolVectorField.Valid`).
- The run-time type test `isA<wallFvPatch>` is the stored flag `isWall` of each patch.
- The polymorphic `==` forced assignment of an `fvPatchField` (SRFInitUrel.C:98) is
  a wholesale replacement of that patch's value sequence. The patch's
  boundary-condition type is not modelled.
- IEEE floating point: vectors are exact reals, so `!=` in the scan is exact
  inequality and subtraction does not round.
- An empty internal field: the source reads `Uif[0]` without a guard, so
  `CheckUniformity` and `Calc` (at time 0 with a header) require at least one cell.
  An empty field is not turned into an error: the code has no such path, and the
  model follows the code.
