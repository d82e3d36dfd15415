/** The orientation classes a half-edge is assigned (`OrientationClasses` of the half-edge class). */
module HalfEdgeClasses {

  /** aligned basic, unaligned basic, evading, aligned deviating, unaligned deviating */
  datatype OrientationClass = AB | UB | E | AD | UD

}
