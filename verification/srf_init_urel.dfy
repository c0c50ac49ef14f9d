/** The SRFInitUrel utility: at time 0, overwrite the relative-velocity field `Urel`
    of a single-rotating-frame case with the free-stream velocity minus the frame's
    rotational velocity, in every cell and on every boundary patch that is not a wall.

    The frame's rotational velocity (`srf.velocity`) is passed in as a pure function
    `vel` from a point to a vector; reading the field, the header test and writing
    the field back are modelled by a boolean input and the `Outcome` of `Calc`. */
module SrfInitUrel {
  import opened Vectors
  import opened SrfModel

  /** Static description of one boundary patch: whether it is a wall patch, and the
      centres of its faces (`mesh.Cf().boundaryField()[patchI]`). */
  datatype PatchGeometry = PatchGeometry(isWall: bool, faceCentres: seq<Vec3>)

  /** The geometry the utility reads: cell centres (`mesh.C()`) and the boundary patches. */
  datatype Mesh = Mesh(cellCentres: seq<Vec3>, patches: seq<PatchGeometry>)

  /** How `Calc` finished: skipped because the time is past 0, skipped because there
      is no `Urel` to read, or the field was rewritten and written back. `notes` is the
      number of "non-uniform internal field" notes printed. */
  datatype Outcome = SkippedTime | NoUrel | Written(uInf: Vec3, notes: nat)

  /** `UInf - vel(p)`: the velocity at `p` seen from inside the rotating frame. Adding
      the frame's own velocity back gives the free stream. */
  function RelativeVelocity(uInf: Vec3, vel: Vec3 -> Vec3, p: Vec3): (r: Vec3)
    ensures Add(r, vel(p)) == uInf
    ensures r == uInf <==> vel(p) == Zero
  {
    Sub(uInf, vel(p))
  }

  /** The field expression `UInf - srf.velocity(points)`, element by element. */
  function RelativeField(uInf: Vec3, vel: Vec3 -> Vec3, points: seq<Vec3>): (r: seq<Vec3>)
    ensures |r| == |points|
    ensures forall i :: 0 <= i < |points| ==> r[i] == RelativeVelocity(uInf, vel, points[i])
  {
    if points == [] then []
    else [RelativeVelocity(uInf, vel, points[0])] + RelativeField(uInf, vel, points[1..])
  }

  /** Every value equals the first one. */
  ghost predicate Uniform(s: seq<Vec3>) {
    forall i :: 0 <= i < |s| ==> s[i] == s[0]
  }

  /** After the overwrite the internal field is uniform exactly when the frame
      velocity is the same at every cell centre. */
  lemma RelativeFieldUniform(uInf: Vec3, vel: Vec3 -> Vec3, points: seq<Vec3>)
    ensures Uniform(RelativeField(uInf, vel, points)) <==>
            forall i :: 0 <= i < |points| ==> vel(points[i]) == vel(points[0])
  {
  }

  /** Without rotation the relative field is the free stream in every cell. */
  lemma NoRotationKeepsFreeStream(uInf: Vec3, origin: Vec3, points: seq<Vec3>)
    ensures RelativeField(uInf, Velocity(Zero, origin), points) == seq(|points|, _ => uInf)
  {
  }

  /** Three cells at (0,0,0), (1,0,0), (0,1,0) and free stream (10,0,0), for any frame
      velocity that is (0,0,0), (0,1,0) and (-1,0,0) at those cells, which is what
      unit-rate rotation about the z axis through the origin gives (`UnitZRotation`). */
  lemma ThreeCellField(vel: Vec3 -> Vec3)
    requires vel(Zero) == Zero
    requires vel(Vec3(1.0, 0.0, 0.0)) == Vec3(0.0, 1.0, 0.0)
    requires vel(Vec3(0.0, 1.0, 0.0)) == Vec3(-1.0, 0.0, 0.0)
    ensures RelativeField(Vec3(10.0, 0.0, 0.0), vel, [Zero, Vec3(1.0, 0.0, 0.0), Vec3(0.0, 1.0, 0.0)])
         == [Vec3(10.0, 0.0, 0.0), Vec3(10.0, -1.0, 0.0), Vec3(11.0, 0.0, 0.0)]
  {
  }

  /** Unit-rate rotation about the z axis through the origin gives the three cells of
      `ThreeCellField` exactly the frame velocities that lemma asks for. */
  lemma ThreeCellRotation()
    ensures Velocity(Vec3(0.0, 0.0, 1.0), Zero)(Zero) == Zero
    ensures Velocity(Vec3(0.0, 0.0, 1.0), Zero)(Vec3(1.0, 0.0, 0.0)) == Vec3(0.0, 1.0, 0.0)
    ensures Velocity(Vec3(0.0, 0.0, 1.0), Zero)(Vec3(0.0, 1.0, 0.0)) == Vec3(-1.0, 0.0, 0.0)
  {
    UnitZRotation(Zero);
    UnitZRotation(Vec3(1.0, 0.0, 0.0));
    UnitZRotation(Vec3(0.0, 1.0, 0.0));
  }

  /** `after` is the boundary obtained from `before` by the patch loop: a wall patch
      keeps its values, every other patch holds the relative velocity at its face
      centres, whatever it held before. */
  ghost predicate BoundaryUpdated(uInf: Vec3, vel: Vec3 -> Vec3, patches: seq<PatchGeometry>,
                                  before: seq<seq<Vec3>>, after: seq<seq<Vec3>>)
  {
    && |before| == |patches|
    && |after| == |patches|
    && forall k :: 0 <= k < |patches| ==>
         after[k] == if patches[k].isWall then before[k]
                     else RelativeField(uInf, vel, patches[k].faceCentres)
  }

  /** One value per face on every patch. */
  ghost predicate PatchSizesMatch(patches: seq<PatchGeometry>, values: seq<seq<Vec3>>) {
    |values| == |patches| &&
    forall k :: 0 <= k < |patches| ==> |values[k]| == |patches[k].faceCentres|
  }

  /** The boundary update overwrites rather than accumulates: its result does not
      depend on the previous non-wall values, so running it again changes nothing. */
  lemma BoundaryUpdateIdempotent(uInf: Vec3, vel: Vec3 -> Vec3, patches: seq<PatchGeometry>,
                                 before: seq<seq<Vec3>>, once: seq<seq<Vec3>>, twice: seq<seq<Vec3>>)
    requires BoundaryUpdated(uInf, vel, patches, before, once)
    requires BoundaryUpdated(uInf, vel, patches, once, twice)
    ensures twice == once
  {
  }

  /** The boundary update is deterministic: the same inputs give the same boundary. */
  lemma BoundaryUpdateDeterministic(uInf: Vec3, vel: Vec3 -> Vec3, patches: seq<PatchGeometry>,
                                    before: seq<seq<Vec3>>, after1: seq<seq<Vec3>>, after2: seq<seq<Vec3>>)
    requires BoundaryUpdated(uInf, vel, patches, before, after1)
    requires BoundaryUpdated(uInf, vel, patches, before, after2)
    ensures after1 == after2
  {
  }

  /** The field `Urel`: internal (per-cell) values and per-patch boundary values over
      a fixed mesh. */
  class VolVectorField {
    const mesh: Mesh
    var internal: array<Vec3>
    var boundary: array<seq<Vec3>>

    /** One internal value per cell, one boundary value list per patch, one value per face. */
    ghost predicate Valid()
      reads this, boundary
    {
      internal.Length == |mesh.cellCentres| && PatchSizesMatch(mesh.patches, boundary[..])
    }

    /** Reading the field from the case: the values come from the loader. */
    constructor Read(mesh: Mesh, cells: seq<Vec3>, faces: seq<seq<Vec3>>)
      requires |cells| == |mesh.cellCentres| && PatchSizesMatch(mesh.patches, faces)
      ensures Valid() && this.mesh == mesh
      ensures fresh(internal) && fresh(boundary)
      ensures internal[..] == cells && boundary[..] == faces
    {
      this.mesh := mesh;
      internal := new Vec3[|cells|](i requires 0 <= i < |cells| => cells[i]);
      boundary := new seq<Vec3>[|faces|](k requires 0 <= k < |faces| => faces[k]);
    }

    /** The `forAll(patches, patchI)` loop: every non-wall patch is force-assigned the
        relative velocity at its face centres; wall patches and the internal field are
        not touched, and every patch keeps its length. */
    method UpdateBoundary(uInf: Vec3, vel: Vec3 -> Vec3)
      requires Valid()
      modifies boundary
      ensures Valid()
      ensures BoundaryUpdated(uInf, vel, mesh.patches, old(boundary[..]), boundary[..])
    {
      var patches := mesh.patches;
      var patchI := 0;
      while patchI < boundary.Length
        invariant 0 <= patchI <= boundary.Length
        invariant forall k :: 0 <= k < patchI ==>
                    boundary[k] == if patches[k].isWall then old(boundary[k])
                                   else RelativeField(uInf, vel, patches[k].faceCentres)
        invariant forall k :: patchI <= k < boundary.Length ==> boundary[k] == old(boundary[k])
      {
        if !patches[patchI].isWall {
          boundary[patchI] := RelativeField(uInf, vel, patches[patchI].faceCentres);
        }
        patchI := patchI + 1;
      }
    }
  }

  /** The uniformity scan: `UInf` is the first cell value, and the loop stops at the
      first cell that differs from it, printing one note. The field is only read. */
  method CheckUniformity(uif: array<Vec3>) returns (uInf: Vec3, notes: nat)
    requires uif.Length > 0
    ensures uInf == uif[0]
    ensures notes <= 1
    ensures notes == 0 <==> Uniform(uif[..])
    ensures notes == 1 <==> exists i :: 0 <= i < uif.Length && uif[i] != uInf
  {
    uInf := uif[0];
    notes := 0;
    var i := 0;
    while i < uif.Length
      invariant 0 <= i <= uif.Length
      invariant notes == 0
      invariant forall k :: 0 <= k < i ==> uif[k] == uInf
    {
      if uif[i] != uInf {
        notes := notes + 1;
        break;
      }
      i := i + 1;
    }
  }

  /** `Uif = UInf - srf.velocity(C)`: a whole-field assignment, so every cell is
      overwritten at once, whatever it held before. */
  method AssignInternal(uif: array<Vec3>, uInf: Vec3, vel: Vec3 -> Vec3, cellCentres: seq<Vec3>)
    requires uif.Length == |cellCentres|
    modifies uif
    ensures uif[..] == RelativeField(uInf, vel, cellCentres)
  {
    var rel := RelativeField(uInf, vel, cellCentres);
    forall i | 0 <= i < uif.Length {
      uif[i] := rel[i];
    }
  }

  /** The utility's `calc`. `time` is the current output time and `headerOk` says
      whether a `Urel` header exists at that time. `cells` and `faces` are the values
      the field read would load; they are used, and the field object is built, only
      at time 0 (or earlier) with the header present. The returned field is the one
      the utility writes back, and it is null exactly when nothing was written. */
  method Calc(time: real, headerOk: bool, mesh: Mesh, cells: seq<Vec3>, faces: seq<seq<Vec3>>,
              vel: Vec3 -> Vec3)
    returns (outcome: Outcome, urel: VolVectorField?)
    requires time <= 0.0 && headerOk ==>
               0 < |cells| == |mesh.cellCentres| && PatchSizesMatch(mesh.patches, faces)
    ensures time > 0.0 ==> outcome == SkippedTime
    ensures time <= 0.0 && !headerOk ==> outcome == NoUrel
    ensures urel != null <==> outcome.Written?
    ensures time <= 0.0 && headerOk ==>
              && urel != null
              && fresh(urel) && fresh(urel.internal) && fresh(urel.boundary)
              && urel.Valid() && urel.mesh == mesh
              && outcome.uInf == cells[0]
              && outcome.notes <= 1
              && (outcome.notes == 0 <==> Uniform(cells))
              && urel.internal[..] == RelativeField(outcome.uInf, vel, mesh.cellCentres)
              && BoundaryUpdated(outcome.uInf, vel, mesh.patches, faces, urel.boundary[..])
  {
    if time > 0.0 {
      return SkippedTime, null;
    }
    if !headerOk {
      return NoUrel, null;
    }
    urel := new VolVectorField.Read(mesh, cells, faces);
    var uInf, notes := CheckUniformity(urel.internal);
    AssignInternal(urel.internal, uInf, vel, mesh.cellCentres);
    urel.UpdateBoundary(uInf, vel);
    outcome := Written(uInf, notes);
  }
}
