/**
 * The fluent ghost builder: eager values, per-property lazy closures and lazy groups are
 * accumulated in place, and `Build` turns them into a lazy ghost object.
 */
module Builder {
  import opened Common
  import opened Seqs
  import opened Runtime
  import opened LazyGroups
  import opened GhostInitializer

  /**
   * Collaborators the builder calls whose bodies are not part of this model; only the
   * way their answers are used is modelled.
   */
  datatype Helpers = Helpers(
    // the constructor parameter names of the class, or the error it throws
    constructorPropertiesNames: ClassInfo -> Result<seq<string>>,
    // constructor names, eager keys, lazy-property keys, groups
    checkGivenAllClassConstructorParameters: (seq<string>, set<string>, set<string>, seq<LazyGroup>) -> bool,
    checkLazyPropertiesHasLazyAttribute: seq<string> -> bool,
    // `initializer(list)`: compiles the closure handed to `newLazyGhost` for these names, or throws
    initializer: seq<string> -> Outcome)

  /** The constructor parameters left to the deferred initializer: those with no eager value, in constructor order. */
  function NamesForInitializer(constructorNames: seq<string>, eager: set<string>): (r: seq<string>) {
    Filter(constructorNames, (n: string) => n !in eager)
  }

  /** A name is handed to the initializer iff it is a constructor parameter without an eager value. */
  lemma NamesForInitializerMembers(constructorNames: seq<string>, eager: set<string>)
    ensures forall n :: n in NamesForInitializer(constructorNames, eager) <==> n in constructorNames && n !in eager
    ensures |NamesForInitializer(constructorNames, eager)| <= |constructorNames|
  {
  }

  /** The selection keeps constructor order: it distributes over any split of the constructor names. */
  lemma NamesForInitializerOrder(front: seq<string>, back: seq<string>, eager: set<string>)
    ensures NamesForInitializer(front + back, eager)
            == NamesForInitializer(front, eager) + NamesForInitializer(back, eager)
  {
    FilterAppend(front, back, (n: string) => n !in eager);
  }

  /** With no eager values, every constructor parameter goes to the initializer, in order. */
  lemma {:induction false} NoEagerValuesKeepsAllNames(constructorNames: seq<string>)
    ensures NamesForInitializer(constructorNames, {}) == constructorNames
    decreases |constructorNames|
  {
    if constructorNames != [] {
      NoEagerValuesKeepsAllNames(constructorNames[..|constructorNames| - 1]);
    }
  }

  class LazyGhostBuilder<V> {
    const className: string
    const cls: ClassInfo
    var customLazyAttribute: Option<string>
    var initializer: Option<Closure>
    var properties: map<string, V>
    var lazyProperties: map<string, Closure>
    var lazyGroupProperties: seq<LazyGroup>

    constructor (className: string, cls: ClassInfo)
      ensures this.className == className && this.cls == cls
      ensures customLazyAttribute == None && initializer == None
      ensures properties == map[] && lazyProperties == map[] && lazyGroupProperties == []
    {
      this.className := className;
      this.cls := cls;
      customLazyAttribute := None;
      initializer := None;
      properties := map[];
      lazyProperties := map[];
      lazyGroupProperties := [];
    }

    /** The constructor guard: `loaded` maps the names of the existing classes to their reflection. */
    static method Create(className: string, loaded: map<string, ClassInfo>) returns (r: Result<LazyGhostBuilder<V>>)
      ensures r.Failure? <==> className !in loaded
      ensures r.Failure? ==> r.error == NotAClass
      ensures r.Success? ==> fresh(r.value) && r.value.className == className && r.value.cls == loaded[className]
      ensures r.Success? ==> r.value.properties == map[] && r.value.lazyProperties == map[]
                             && r.value.lazyGroupProperties == [] && r.value.initializer == None
                             && r.value.customLazyAttribute == None
    {
      if className !in loaded {
        return Failure(NotAClass);
      }
      var b := new LazyGhostBuilder(className, loaded[className]);
      r := Success(b);
    }

    /** Sets one eager value, overwriting an earlier one for the same name. */
    method Property(property: string, value: V) returns (self: LazyGhostBuilder<V>)
      modifies this
      ensures self == this
      ensures properties == old(properties)[property := value]
      ensures lazyProperties == old(lazyProperties) && lazyGroupProperties == old(lazyGroupProperties)
      ensures initializer == old(initializer) && customLazyAttribute == old(customLazyAttribute)
    {
      properties := properties[property := value];
      self := this;
    }

    /** Registers a lazy closure for one property, after the lazy-attribute check passes. */
    method LazyProperty(property: string, lazy: Closure, helpers: Helpers) returns (r: Result<LazyGhostBuilder<V>>)
      modifies this
      ensures r.Failure? <==> !helpers.checkLazyPropertiesHasLazyAttribute([property])
      ensures r.Failure? ==> r.error == NotMarkedLazy && lazyProperties == old(lazyProperties)
      ensures r.Success? ==> r.value == this && lazyProperties == old(lazyProperties)[property := lazy]
      ensures properties == old(properties) && lazyGroupProperties == old(lazyGroupProperties)
      ensures initializer == old(initializer) && customLazyAttribute == old(customLazyAttribute)
    {
      if !helpers.checkLazyPropertiesHasLazyAttribute([property]) {
        return Failure(NotMarkedLazy);
      }
      lazyProperties := lazyProperties[property := lazy];
      r := Success(this);
    }

    /**
     * Appends one group, after the lazy-attribute check passes. The group id comes from the
     * wall clock in the running system and is a parameter here.
     */
    method LazyGroupProperties(properties: seq<NonEmptyString>, lazy: Closure, id: NonEmptyString, helpers: Helpers)
      returns (r: Result<LazyGhostBuilder<V>>)
      modifies this
      ensures r.Failure? <==> !helpers.checkLazyPropertiesHasLazyAttribute(properties)
      ensures r.Failure? ==> r.error == NotMarkedLazy && lazyGroupProperties == old(lazyGroupProperties)
      ensures r.Success? ==> r.value == this
      ensures r.Success? ==> lazyGroupProperties == old(lazyGroupProperties) + [LazyGroup(id, properties, lazy)]
      ensures r.Success? ==> forall i :: 0 <= i < |properties| ==> lazyGroupProperties[|lazyGroupProperties| - 1].HasProperty(properties[i])
      ensures this.properties == old(this.properties) && lazyProperties == old(lazyProperties)
      ensures initializer == old(initializer) && customLazyAttribute == old(customLazyAttribute)
    {
      if !helpers.checkLazyPropertiesHasLazyAttribute(properties) {
        return Failure(NotMarkedLazy);
      }
      lazyGroupProperties := lazyGroupProperties + [LazyGroup(id, properties, lazy)];
      r := Success(this);
    }

    /**
     * Compiles the deferred initializer: the initializer guard first, then classification and
     * the eager-completeness check; the closure captures the class, the user's initializer and
     * the lazy-property count.
     */
    method GetInitializer() returns (r: Result<Deferred>)
      ensures initializer.None? ==> r == Failure(InitializerNotAssigned)
      ensures initializer.Some? ==>
        (r.Success? <==> AllNonLazySupplied(NonLazyOf(cls.properties, customLazyAttribute), properties.Keys))
      ensures initializer.Some? && r.Failure? ==> r.error == NotAllPropertiesPassed
      ensures r.Success? ==> r.value == Deferred(cls, initializer.value, |LazyOf(cls.properties, customLazyAttribute)|)
    {
      var check := CheckInitializerInitialize(initializer);
      if check.Fail? {
        return Failure(check.error);
      }
      var objectProperties := GetObjectProperties(cls.properties, customLazyAttribute);
      var complete := CheckGivenAllNotLazyConstructorParameters(objectProperties.nonLazyProperties, properties.Keys);
      if complete.Fail? {
        return Failure(complete.error);
      }
      r := Success(Deferred(cls, initializer.value, objectProperties.lazyPropertiesCount));
    }

    /** The eager raw write of one entry succeeds: the property exists and its type accepts the value. */
    predicate EagerWriteOk(name: string, typeOk: (string, V) -> bool)
      reads this
      requires name in properties
    {
      cls.HasProperty(name) && typeOk(name, properties[name])
    }

    /** The reconciliation check `build` runs on the constructor parameter names. */
    predicate Reconciled(helpers: Helpers, constructorNames: seq<string>)
      reads this
    {
      helpers.checkGivenAllClassConstructorParameters(constructorNames, properties.Keys, lazyProperties.Keys, lazyGroupProperties)
    }

    /**
     * Reads the constructor parameters and reconciles them, compiles an initializer for the
     * parameters without an eager value, creates the ghost bound to it, then raw-writes every
     * eager entry into it. Every failure happens before an object is returned.
     */
    method Build(helpers: Helpers, typeOk: (string, V) -> bool) returns (r: Result<GhostObject<V>>)
      ensures var names := helpers.constructorPropertiesNames(cls);
        names.Failure? ==> r == Failure(names.error)
      ensures var names := helpers.constructorPropertiesNames(cls);
        names.Success? && !Reconciled(helpers, names.value) ==> r == Failure(ConstructorParametersMismatch)
      ensures var names := helpers.constructorPropertiesNames(cls);
        names.Success? && Reconciled(helpers, names.value) ==>
          var compiled := helpers.initializer(NamesForInitializer(names.value, properties.Keys));
          compiled.Fail? ==> r == Failure(compiled.error)
      ensures var names := helpers.constructorPropertiesNames(cls);
        r.Success? <==>
          && names.Success?
          && Reconciled(helpers, names.value)
          && helpers.initializer(NamesForInitializer(names.value, properties.Keys)).Pass?
          && forall n :: n in properties ==> EagerWriteOk(n, typeOk)
      ensures var names := helpers.constructorPropertiesNames(cls);
        r.Failure? && names.Success? && Reconciled(helpers, names.value)
        && helpers.initializer(NamesForInitializer(names.value, properties.Keys)).Pass?
        ==> r.error == EagerTypeMismatch
      ensures r.Success? ==> fresh(r.value) && r.value.cls == cls && r.value.values == properties
      ensures r.Success? ==>
        r.value.initializerNames == NamesForInitializer(helpers.constructorPropertiesNames(cls).value, properties.Keys)
    {
      var names := helpers.constructorPropertiesNames(cls);
      if names.Failure? {
        return Failure(names.error);
      }
      var constructorParameterNames := names.value;
      if !helpers.checkGivenAllClassConstructorParameters(
            constructorParameterNames, properties.Keys, lazyProperties.Keys, lazyGroupProperties) {
        return Failure(ConstructorParametersMismatch);
      }

      var namesForInitializer: seq<string> := [];
      for i := 0 to |constructorParameterNames|
        invariant namesForInitializer == NamesForInitializer(constructorParameterNames[..i], properties.Keys)
      {
        var property := constructorParameterNames[i];
        assert constructorParameterNames[..i + 1][..i] == constructorParameterNames[..i];
        if property in properties {
          continue;
        }
        namesForInitializer := namesForInitializer + [property];
      }
      assert constructorParameterNames[..|constructorParameterNames|] == constructorParameterNames;

      var compiled := helpers.initializer(namesForInitializer);
      if compiled.Fail? {
        return Failure(compiled.error);
      }
      var ghostObject := new GhostObject(cls, namesForInitializer);

      var pending := properties.Keys;
      while pending != {}
        invariant pending <= properties.Keys
        invariant ghostObject.values == map n | n in properties.Keys - pending :: properties[n]
        invariant forall n :: n in properties.Keys - pending ==> EagerWriteOk(n, typeOk)
        decreases pending
      {
        var property :| property in pending;
        if !EagerWriteOk(property, typeOk) {
          return Failure(EagerTypeMismatch);
        }
        ghostObject.values := ghostObject.values[property := properties[property]];
        pending := pending - {property};
      }
      r := Success(ghostObject);
    }
  }

  /** Some lazy-tagged property of the class has this name. */
  predicate IsLazyName(cls: ClassInfo, customLazyAttribute: Option<string>, name: string) {
    exists p :: p in LazyOf(cls.properties, customLazyAttribute) && p.name == name
  }

  /**
   * With a compiled initializer, yielding every lazy property exactly once, in any order, each with
   * a value its type accepts, succeeds and leaves every lazy property written, provided no lazy
   * property holds a value yet (a readonly one would refuse the second write).
   */
  lemma YieldingEachLazyPropertySucceeds<V>(cls: ClassInfo, customLazyAttribute: Option<string>, source: Closure,
                                            items: seq<Yielded<V>>, obj: map<string, V>, typeOk: (string, V) -> bool)
    requires cls.UniqueNames()
    requires forall p :: p in LazyOf(cls.properties, customLazyAttribute) ==> p.name !in obj
    requires |items| == |LazyOf(cls.properties, customLazyAttribute)|
    requires forall i :: 0 <= i < |items| ==> items[i].Property? && typeOk(items[i].name, items[i].value)
    requires forall i, j :: 0 <= i < j < |items| ==> items[i].name != items[j].name
    requires forall i :: 0 <= i < |items| ==> IsLazyName(cls, customLazyAttribute, items[i].name)
    ensures var d := Deferred(cls, source, |LazyOf(cls.properties, customLazyAttribute)|);
      && Initialize(d, items, obj, typeOk).outcome == Pass
      && forall p :: p in LazyOf(cls.properties, customLazyAttribute) ==> p.name in Initialize(d, items, obj, typeOk).values
  {
    var lazy := LazyOf(cls.properties, customLazyAttribute);
    var d := Deferred(cls, source, |lazy|);
    forall i | 0 <= i < |items| ensures Accepted(cls, items[i]) {
      assert IsLazyName(cls, customLazyAttribute, items[i].name);
      var p :| p in lazy && p.name == items[i].name;
      assert p in cls.properties;
      var j :| 0 <= j < |cls.properties| && cls.properties[j] == p;
      assert cls.properties[j].name == items[i].name;
    }
    var writes := Collect(cls, items).value;
    forall i | 0 <= i < |writes|
      ensures writes[i].name == items[i].name && typeOk(writes[i].name, writes[i].value)
    {
      assert items[i] == Property(writes[i].name, writes[i].value);
    }
    assert AllWritable(cls, obj, writes, typeOk) by {
      forall i | 0 <= i < |writes| ensures writes[i].name !in obj && FirstWriteOf(writes, i) {
        var p :| p in lazy && p.name == items[i].name;
      }
    }
    SuccessfulInitializationValues(d, items, obj, typeOk);
    LazyNamesYielded(cls, customLazyAttribute, items);
  }

  /** The names of the yielded properties. */
  function YieldedNames<V>(items: seq<Yielded<V>>): (r: set<string>)
    ensures forall i :: 0 <= i < |items| && items[i].Property? ==> items[i].name in r
  {
    set i | 0 <= i < |items| && items[i].Property? :: items[i].name
  }

  /** The names of some properties. */
  function NamesOf(props: seq<PropertyInfo>): (r: set<string>)
    ensures forall p :: p in props ==> p.name in r
  {
    set p | p in props :: p.name
  }

  /** Pairwise different yielded names count one each. */
  lemma {:induction false} YieldedNamesCount<V>(items: seq<Yielded<V>>)
    requires forall i :: 0 <= i < |items| ==> items[i].Property?
    requires forall i, j :: 0 <= i < j < |items| ==> items[i].name != items[j].name
    ensures |YieldedNames(items)| == |items|
    decreases |items|
  {
    if items != [] {
      var init := items[..|items| - 1];
      var last := items[|items| - 1];
      assert forall i :: 0 <= i < |init| ==> init[i] == items[i];
      YieldedNamesCount(init);
      assert YieldedNames(items) == YieldedNames(init) + {last.name};
    }
  }

  /** Pairwise different property names count one each. */
  lemma {:induction false} NamesOfCount(props: seq<PropertyInfo>)
    requires forall i, j :: 0 <= i < j < |props| ==> props[i].name != props[j].name
    ensures |NamesOf(props)| == |props|
    decreases |props|
  {
    if props != [] {
      var init := props[..|props| - 1];
      var last := props[|props| - 1];
      assert props == init + [last];
      assert forall i :: 0 <= i < |init| ==> init[i] == props[i];
      NamesOfCount(init);
      assert last.name !in NamesOf(init);
      assert NamesOf(props) == NamesOf(init) + {last.name};
    }
  }

  /** Pairwise different yielded names, each a lazy name, as many as the lazy properties: they are all the lazy names. */
  lemma LazyNamesYielded<V>(cls: ClassInfo, customLazyAttribute: Option<string>, items: seq<Yielded<V>>)
    requires cls.UniqueNames()
    requires |items| == |LazyOf(cls.properties, customLazyAttribute)|
    requires forall i :: 0 <= i < |items| ==> items[i].Property?
    requires forall i, j :: 0 <= i < j < |items| ==> items[i].name != items[j].name
    requires forall i :: 0 <= i < |items| ==> IsLazyName(cls, customLazyAttribute, items[i].name)
    ensures forall p :: p in LazyOf(cls.properties, customLazyAttribute) ==>
      exists i :: 0 <= i < |items| && items[i] == Property(p.name, items[i].value)
  {
    var lazy := LazyOf(cls.properties, customLazyAttribute);
    LazyNamesDistinct(cls, customLazyAttribute);
    YieldedNamesCount(items);
    NamesOfCount(lazy);
    assert YieldedNames(items) <= NamesOf(lazy);
    SameSizeSubsetEqual(YieldedNames(items), NamesOf(lazy));
    forall p | p in lazy ensures exists i :: 0 <= i < |items| && items[i] == Property(p.name, items[i].value) {
      assert p.name in YieldedNames(items);
      var i :| 0 <= i < |items| && items[i].Property? && items[i].name == p.name;
      assert items[i] == Property(p.name, items[i].value);
    }
  }

  /** The lazy properties of a class carry pairwise different names. */
  lemma LazyNamesDistinct(cls: ClassInfo, customLazyAttribute: Option<string>)
    requires cls.UniqueNames()
    ensures var lazy := LazyOf(cls.properties, customLazyAttribute);
      forall i, j :: 0 <= i < j < |lazy| ==> lazy[i].name != lazy[j].name
  {
    var lazy := LazyOf(cls.properties, customLazyAttribute);
    FilterNoDuplicates(cls.properties, (p: PropertyInfo) => IsLazyTagged(p, customLazyAttribute));
    forall i, j | 0 <= i < j < |lazy| ensures lazy[i].name != lazy[j].name {
      assert lazy[i] in cls.properties && lazy[j] in cls.properties;
      var a :| 0 <= a < |cls.properties| && cls.properties[a] == lazy[i];
      var b :| 0 <= b < |cls.properties| && cls.properties[b] == lazy[j];
      assert a != b;
    }
  }
}
