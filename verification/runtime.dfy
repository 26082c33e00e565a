/**
 * What the builder reads from PHP reflection, and the object it produces.
 * A reflected class is its declared properties in reflection order; an attribute
 * instance is the set of class names it is an `instanceof`.
 */
module Runtime {

  datatype Attribute = Attribute(instanceOf: set<string>)

  /** A declared property: its name, its attribute instances, whether it has a default, whether it is readonly. */
  datatype PropertyInfo = PropertyInfo(name: string, attributes: seq<Attribute>, hasDefault: bool, readonly: bool)

  datatype ClassInfo = ClassInfo(properties: seq<PropertyInfo>) {
    /** `ReflectionClass::getProperty(name)` succeeds exactly for a declared property. */
    predicate HasProperty(name: string) {
      exists i :: 0 <= i < |properties| && properties[i].name == name
    }

    /** A declared property of that name is readonly: once it holds a value, a raw write to it throws. */
    predicate IsReadonly(name: string) {
      exists i :: 0 <= i < |properties| && properties[i].name == name && properties[i].readonly
    }

    /** PHP never declares two properties of one class under the same name. */
    predicate UniqueNames() {
      forall i, j :: 0 <= i < j < |properties| ==> properties[i].name != properties[j].name
    }
  }

  /**
   * A lazy ghost of a reflected class: the property values written so far, and the
   * constructor-parameter names its deferred initializer was compiled for.
   */
  class GhostObject<V> {
    const cls: ClassInfo
    const initializerNames: seq<string>
    var values: map<string, V>

    constructor (cls: ClassInfo, initializerNames: seq<string>)
      ensures this.cls == cls && this.initializerNames == initializerNames
      ensures values == map[]
    {
      this.cls := cls;
      this.initializerNames := initializerNames;
      values := map[];
    }
  }
}
