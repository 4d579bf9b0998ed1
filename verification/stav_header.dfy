/** The checks both `Score` constructors make on a parsed staff-model file
    before using it: the root tag, the rotation of a straight page and a
    rectified (all-zero) gradient. */
module StavHeader {
  import opened Wrappers
  import opened Numeric

  /** `DEF_ROT`, the rotation in radians of a page whose lines are straight. */
  const DefRot: real := 1.570796
  /** `EPSILON`, the tolerance on that rotation. */
  const RotTolerance: real := 0.1

  /** The parsed fields the checks read: the root tag, the rotation
      (`root[1][4]`) and the gradient entries (`root[1][5]`). */
  datatype Header = Header(tag: string, rotation: real, gradient: seq<real>)

  /** The checks in order, each a `ValueError`; on success the length of the
      gradient, `staff_length`. */
  function Check(hd: Header): (r: Result<nat>)
    ensures r.Ok? <==>
      && hd.tag == "stav"
      && DefRot - RotTolerance <= hd.rotation <= DefRot + RotTolerance
      && forall i :: 0 <= i < |hd.gradient| ==> hd.gradient[i] == 0.0
    ensures r.Ok? ==> r.value == |hd.gradient|
    ensures r.Err? ==> r.error == ValueError
  {
    if hd.tag != "stav" then Err(ValueError)
    else if AbsReal(hd.rotation - DefRot) > RotTolerance then Err(ValueError)
    else if exists i :: 0 <= i < |hd.gradient| && hd.gradient[i] != 0.0 then Err(ValueError)
    else Ok(|hd.gradient|)
  }
}
