/** A set of properties filled together by one closure. */
module LazyGroups {
  import opened Common

  /**
   * The record is read-only: a datatype value cannot change after construction, and the
   * documented shapes (a non-empty id, a list of non-empty names) are carried by the field types.
   */
  datatype LazyGroup = LazyGroup(id: NonEmptyString, properties: seq<NonEmptyString>, closure: Closure) {

    /** Strict membership of a name in the group's property list. */
    function HasProperty(property: string): (r: bool)
      ensures r <==> exists i :: 0 <= i < |properties| && properties[i] == property
    {
      property in properties
    }
  }

  /** Every name a group was constructed with is reported as one of its properties, and nothing else is. */
  lemma ListedPropertiesAreMembers(id: NonEmptyString, names: seq<NonEmptyString>, closure: Closure, other: string)
    ensures var g := LazyGroup(id, names, closure);
      && (forall i :: 0 <= i < |names| ==> g.HasProperty(names[i]))
      && (g.HasProperty(other) <==> other in names)
      && g.id == id && g.properties == names && g.closure == closure
  {
  }
}
