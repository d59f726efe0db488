/** How strongly a node depends on one of its predecessors, and the integer
    code the graph builder stores as the weight of the corresponding edge. */
module DependencyTypes {
  import opened Wrappers

  datatype DependencyType = Strong | Soft | Weak {

    /** The enum constant's `code` field. */
    function Code(): int {
      match this
      case Strong => 1
      case Soft => 2
      case Weak => 3
    }
  }

  /** `DependencyType.codeOf`: the first constant, in declaration order,
      whose code equals `value`; `None` (Java `null`) when none does. */
  function CodeOf(value: int): (r: Option<DependencyType>)
    ensures r.Some? ==> r.value.Code() == value
    ensures r.None? <==> value !in {1, 2, 3}
  {
    if Strong.Code() == value then Some(Strong)
    else if Soft.Code() == value then Some(Soft)
    else if Weak.Code() == value then Some(Weak)
    else None
  }

  /** Codes are pairwise distinct, so a code identifies its constant. */
  lemma CodeInjective(a: DependencyType, b: DependencyType)
    ensures a.Code() == b.Code() <==> a == b
  {
  }

  /** Decoding the code of a constant gives the constant back. */
  lemma CodeOfRoundTrip(t: DependencyType)
    ensures CodeOf(t.Code()) == Some(t)
  {
  }
}
