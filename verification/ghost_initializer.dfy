/**
 * The validation inside the abstract ghost builder: classifying the target class's
 * properties, checking that every non-lazy one is supplied eagerly, and the deferred
 * initializer closure that writes what the user's initializer yields.
 */
module GhostInitializer {
  import opened Common
  import opened Seqs
  import opened Runtime

  /** The library's own lazy marker, `Neontsun\LazyObject\Attribute\Lazy`. */
  const LazyAttributeClass := "Neontsun\\LazyObject\\Attribute\\Lazy"

  /** An attribute marks a property lazy when it is an instance of the custom attribute (if one is set) or of `Lazy`. */
  predicate IsLazyAttribute(a: Attribute, customLazyAttribute: Option<string>) {
    || (customLazyAttribute.Some? && customLazyAttribute.value in a.instanceOf)
    || LazyAttributeClass in a.instanceOf
  }

  predicate IsLazyTagged(p: PropertyInfo, customLazyAttribute: Option<string>) {
    exists i :: 0 <= i < |p.attributes| && IsLazyAttribute(p.attributes[i], customLazyAttribute)
  }

  /** The lazy-tagged properties, in reflection order. */
  function LazyOf(props: seq<PropertyInfo>, customLazyAttribute: Option<string>): (r: seq<PropertyInfo>) {
    Filter(props, (p: PropertyInfo) => IsLazyTagged(p, customLazyAttribute))
  }

  /** The properties that must be supplied eagerly: neither lazy-tagged nor defaulted, in reflection order. */
  function NonLazyOf(props: seq<PropertyInfo>, customLazyAttribute: Option<string>): (r: seq<PropertyInfo>) {
    Filter(props, (p: PropertyInfo) => !IsLazyTagged(p, customLazyAttribute) && !p.hasDefault)
  }

  /** The properties that are not lazy-tagged but have a default value: they land in neither group. */
  function DefaultedOf(props: seq<PropertyInfo>, customLazyAttribute: Option<string>): (r: seq<PropertyInfo>) {
    Filter(props, (p: PropertyInfo) => !IsLazyTagged(p, customLazyAttribute) && p.hasDefault)
  }

  datatype ObjectProperties = ObjectProperties(nonLazyProperties: seq<PropertyInfo>, lazyPropertiesCount: nat)

  /** Walks the reflected properties once, counting the lazy ones and collecting the required eager ones. */
  method GetObjectProperties(props: seq<PropertyInfo>, customLazyAttribute: Option<string>) returns (op: ObjectProperties)
    ensures op.nonLazyProperties == NonLazyOf(props, customLazyAttribute)
    ensures op.lazyPropertiesCount == |LazyOf(props, customLazyAttribute)|
    ensures forall p :: p in op.nonLazyProperties <==> p in props && !IsLazyTagged(p, customLazyAttribute) && !p.hasDefault
  {
    var nonLazyProperties: seq<PropertyInfo> := [];
    var lazyPropertiesCount := 0;
    for k := 0 to |props|
      invariant nonLazyProperties == NonLazyOf(props[..k], customLazyAttribute)
      invariant lazyPropertiesCount == |LazyOf(props[..k], customLazyAttribute)|
    {
      var property := props[k];
      var hasAttribute := false;
      var a := 0;
      while a < |property.attributes|
        invariant 0 <= a <= |property.attributes|
        invariant !hasAttribute
        invariant forall j :: 0 <= j < a ==> !IsLazyAttribute(property.attributes[j], customLazyAttribute)
      {
        var attribute := property.attributes[a];
        if customLazyAttribute.Some? && customLazyAttribute.value in attribute.instanceOf {
          hasAttribute := true;
          break;
        }
        if LazyAttributeClass in attribute.instanceOf {
          hasAttribute := true;
          break;
        }
        a := a + 1;
      }
      assert hasAttribute == IsLazyTagged(property, customLazyAttribute);
      assert props[..k + 1][..k] == props[..k];
      if hasAttribute {
        lazyPropertiesCount := lazyPropertiesCount + 1;
      }
      if !hasAttribute && !property.hasDefault {
        nonLazyProperties := nonLazyProperties + [property];
      }
    }
    assert props[..|props|] == props;
    op := ObjectProperties(nonLazyProperties, lazyPropertiesCount);
  }

  /** Every reflected property is exactly one of: lazy-tagged, required eagerly, or defaulted. */
  lemma {:induction false} ClassificationPartition(props: seq<PropertyInfo>, customLazyAttribute: Option<string>)
    ensures |LazyOf(props, customLazyAttribute)| + |NonLazyOf(props, customLazyAttribute)|
            + |DefaultedOf(props, customLazyAttribute)| == |props|
    ensures forall p :: p in NonLazyOf(props, customLazyAttribute) ==> p !in LazyOf(props, customLazyAttribute)
    decreases |props|
  {
    if props != [] {
      ClassificationPartition(props[..|props| - 1], customLazyAttribute);
    }
  }

  /** The completeness condition: every required eager property is a key of the eager map. */
  predicate AllNonLazySupplied(nonLazyProperties: seq<PropertyInfo>, supplied: set<string>) {
    forall i :: 0 <= i < |nonLazyProperties| ==> nonLazyProperties[i].name in supplied
  }

  /** Stops at the first required eager property that was not supplied; extra supplied keys are never rejected. */
  method CheckGivenAllNotLazyConstructorParameters(nonLazyProperties: seq<PropertyInfo>, supplied: set<string>)
    returns (o: Outcome)
    ensures o.Pass? <==> AllNonLazySupplied(nonLazyProperties, supplied)
    ensures o.Fail? ==> o.error == NotAllPropertiesPassed
  {
    for i := 0 to |nonLazyProperties|
      invariant forall j :: 0 <= j < i ==> nonLazyProperties[j].name in supplied
    {
      if nonLazyProperties[i].name !in supplied {
        return Fail(NotAllPropertiesPassed);
      }
    }
    o := Pass;
  }

  /** The guard that runs before anything else in getInitializer. */
  function CheckInitializerInitialize(initializer: Option<Closure>): (o: Outcome)
    ensures o.Pass? <==> initializer.Some?
    ensures o.Fail? ==> o.error == InitializerNotAssigned
  {
    if initializer.None? then Fail(InitializerNotAssigned) else Pass
  }

  // ---------------------------------------------------------------------------------------
  // The deferred initializer closure

  /** One item of the iterable the user's initializer yields. */
  datatype Yielded<V> = Property(name: string, value: V) | NotAProperty(value: V)

  /** A yielded property resolved against the class (the `LazyProperty` DTO). */
  datatype LazyWrite<V> = LazyWrite(name: string, value: V)

  /** What the closure captures: the reflected class, the user's initializer and the lazy-property count. */
  datatype Deferred = Deferred(cls: ClassInfo, source: Closure, lazyCount: nat)

  /** The object's property values after the closure ran, and how it ended. */
  datatype Written<V> = Written(values: map<string, V>, outcome: Outcome)

  /** An item the collecting loop lets through: a Property naming a property of the class. */
  predicate Accepted<V>(cls: ClassInfo, item: Yielded<V>) {
    item.Property? && cls.HasProperty(item.name)
  }

  /** The collecting loop: the yielded properties in yield order, or the error of the first rejected item. */
  function Collect<V>(cls: ClassInfo, items: seq<Yielded<V>>): (r: Result<seq<LazyWrite<V>>>)
    ensures r.Success? <==> forall i :: 0 <= i < |items| ==> Accepted(cls, items[i])
    ensures r.Success? ==> |r.value| == |items|
    ensures r.Success? ==> forall i :: 0 <= i < |items| ==> items[i] == Property(r.value[i].name, r.value[i].value)
    ensures r.Failure? ==> r.error == UnexpectedType || r.error == PropertyNotFound
    decreases |items|
  {
    if items == [] then Success([])
    else
      var init := items[..|items| - 1];
      var last := items[|items| - 1];
      match Collect(cls, init)
      case Failure(e) => Failure(e)
      case Success(writes) =>
        match last
        case NotAProperty(_) => Failure(UnexpectedType)
        case Property(name, value) =>
          if cls.HasProperty(name) then Success(writes + [LazyWrite(name, value)])
          else Failure(PropertyNotFound)
  }


  /** The raw write `setRawValue` accepts: the type takes the value, and a readonly property holds none yet. */
  predicate CanWrite<V>(cls: ClassInfo, values: map<string, V>, w: LazyWrite<V>, typeOk: (string, V) -> bool) {
    typeOk(w.name, w.value) && !(cls.IsReadonly(w.name) && w.name in values)
  }

  /** The write loop inside one try block: writes in order and stops at the first write that throws. */
  function WriteAll<V>(cls: ClassInfo, obj: map<string, V>, writes: seq<LazyWrite<V>>, typeOk: (string, V) -> bool)
    : (r: Written<V>)
    ensures r.outcome.Fail? ==> r.outcome.error == LazyTypeMismatch
    decreases |writes|
  {
    if writes == [] then Written(obj, Pass)
    else
      var prior := WriteAll(cls, obj, writes[..|writes| - 1], typeOk);
      var w := writes[|writes| - 1];
      if prior.outcome.Fail? then prior
      else if CanWrite(cls, prior.values, w, typeOk) then Written(prior.values[w.name := w.value], Pass)
      else Written(prior.values, Fail(LazyTypeMismatch))
  }

  /** Write `i` is the first one under its name. */
  predicate FirstWriteOf<V>(writes: seq<LazyWrite<V>>, i: nat)
    requires i < |writes|
  {
    forall j :: 0 <= j < i ==> writes[j].name != writes[i].name
  }

  /**
   * Every write is accepted in its turn: its type takes the value, and a readonly property is
   * written only when the object did not already hold it and no earlier write named it.
   */
  predicate AllWritable<V>(cls: ClassInfo, obj: map<string, V>, writes: seq<LazyWrite<V>>, typeOk: (string, V) -> bool) {
    forall i :: 0 <= i < |writes| ==>
      && typeOk(writes[i].name, writes[i].value)
      && (cls.IsReadonly(writes[i].name) ==> writes[i].name !in obj && FirstWriteOf(writes, i))
  }

  /** The whole closure body, given what the user's initializer yielded this time. */
  function Initialize<V>(d: Deferred, items: seq<Yielded<V>>, obj: map<string, V>, typeOk: (string, V) -> bool)
    : (r: Written<V>)
    ensures r.outcome.Pass? <==>
      && |items| == d.lazyCount
      && Collect(d.cls, items).Success?
      && AllWritable(d.cls, obj, Collect(d.cls, items).value, typeOk)
    ensures r.outcome.Fail? && r.outcome.error != LazyTypeMismatch ==> r.values == obj
    ensures (forall i :: 0 <= i < |items| ==> Accepted(d.cls, items[i])) && |items| != d.lazyCount
            ==> r == Written(obj, Fail(LazyCountMismatch))
  {
    match Collect(d.cls, items)
    case Failure(e) => Written(obj, Fail(e))
    case Success(writes) =>
      if d.lazyCount != |writes| then Written(obj, Fail(LazyCountMismatch))
      else
        WriteAllPassesIff(d.cls, obj, writes, typeOk);
        WriteAll(d.cls, obj, writes, typeOk)
  }

  /** The closure itself: collect, compare the count, then write into the object field by field. */
  method RunInitializer<V>(d: Deferred, yielded: seq<Yielded<V>>, obj: GhostObject<V>, typeOk: (string, V) -> bool)
    returns (outcome: Outcome)
    modifies obj
    ensures Written(obj.values, outcome) == Initialize(d, yielded, old(obj.values), typeOk)
  {
    ghost var before := obj.values;
    var lazyProperties: seq<LazyWrite<V>> := [];
    for i := 0 to |yielded|
      invariant Collect(d.cls, yielded[..i]) == Success(lazyProperties)
      invariant obj.values == before
    {
      var lazyProperty := yielded[i];
      if !lazyProperty.Property? {
        InitializeRejectsAt(d, yielded, before, typeOk, i);
        return Fail(UnexpectedType);
      }
      if !d.cls.HasProperty(lazyProperty.name) {
        InitializeRejectsAt(d, yielded, before, typeOk, i);
        return Fail(PropertyNotFound);
      }
      CollectStep(d.cls, yielded, i, lazyProperties);
      lazyProperties := lazyProperties + [LazyWrite(lazyProperty.name, lazyProperty.value)];
    }
    assert yielded[..|yielded|] == yielded;

    if d.lazyCount != |lazyProperties| {
      return Fail(LazyCountMismatch);
    }

    for i := 0 to |lazyProperties|
      invariant WriteAll(d.cls, before, lazyProperties[..i], typeOk) == Written(obj.values, Pass)
    {
      var w := lazyProperties[i];
      if !CanWrite(d.cls, obj.values, w, typeOk) {
        WriteAllStopsAtFirstMismatch(d.cls, before, lazyProperties, typeOk, i);
        return Fail(LazyTypeMismatch);
      }
      WriteAllStep(d.cls, before, lazyProperties, typeOk, i);
      obj.values := obj.values[w.name := w.value];
    }
    assert lazyProperties[..|lazyProperties|] == lazyProperties;
    outcome := Pass;
  }

  /** A rejected item after an accepted prefix ends the closure with the item's error and no write. */
  lemma InitializeRejectsAt<V>(d: Deferred, items: seq<Yielded<V>>, obj: map<string, V>, typeOk: (string, V) -> bool, k: nat)
    requires k < |items| && Collect(d.cls, items[..k]).Success? && !Accepted(d.cls, items[k])
    ensures Initialize(d, items, obj, typeOk)
            == Written(obj, Fail(if items[k].NotAProperty? then UnexpectedType else PropertyNotFound))
  {
    forall j | 0 <= j < k ensures Accepted(d.cls, items[j]) {
      assert items[..k][j] == items[j];
    }
    CollectFirstRejection(d.cls, items, k);
  }

  lemma CollectStep<V>(cls: ClassInfo, items: seq<Yielded<V>>, i: nat, writes: seq<LazyWrite<V>>)
    requires i < |items| && Collect(cls, items[..i]) == Success(writes) && Accepted(cls, items[i])
    ensures Collect(cls, items[..i + 1]) == Success(writes + [LazyWrite(items[i].name, items[i].value)])
  {
    assert items[..i + 1][..i] == items[..i];
  }

  lemma WriteAllStep<V>(cls: ClassInfo, obj: map<string, V>, writes: seq<LazyWrite<V>>, typeOk: (string, V) -> bool, i: nat)
    requires i < |writes| && WriteAll(cls, obj, writes[..i], typeOk).outcome.Pass?
    requires CanWrite(cls, WriteAll(cls, obj, writes[..i], typeOk).values, writes[i], typeOk)
    ensures WriteAll(cls, obj, writes[..i + 1], typeOk)
            == Written(WriteAll(cls, obj, writes[..i], typeOk).values[writes[i].name := writes[i].value], Pass)
  {
    assert writes[..i + 1][..i] == writes[..i];
  }

  /** The first rejected item decides the error: a non-Property gives UnexpectedType, an unknown name PropertyNotFound. */
  lemma {:induction false} CollectFirstRejection<V>(cls: ClassInfo, items: seq<Yielded<V>>, k: nat)
    requires k < |items| && !Accepted(cls, items[k])
    requires forall j :: 0 <= j < k ==> Accepted(cls, items[j])
    ensures Collect(cls, items) == Failure(if items[k].NotAProperty? then UnexpectedType else PropertyNotFound)
    decreases |items|
  {
    var init := items[..|items| - 1];
    if k < |items| - 1 {
      CollectFirstRejection(cls, init, k);
    }
  }

  /** A rejected write stops the loop: exactly the writes before it have reached the object. */
  lemma {:induction false} WriteAllStopsAtFirstMismatch<V>(cls: ClassInfo, obj: map<string, V>, writes: seq<LazyWrite<V>>,
                                                        typeOk: (string, V) -> bool, k: nat)
    requires k < |writes| && WriteAll(cls, obj, writes[..k], typeOk).outcome.Pass?
    requires !CanWrite(cls, WriteAll(cls, obj, writes[..k], typeOk).values, writes[k], typeOk)
    ensures WriteAll(cls, obj, writes, typeOk)
            == Written(WriteAll(cls, obj, writes[..k], typeOk).values, Fail(LazyTypeMismatch))
    decreases |writes|
  {
    var init := writes[..|writes| - 1];
    if k < |writes| - 1 {
      assert init[..k] == writes[..k];
      WriteAllStopsAtFirstMismatch(cls, obj, init, typeOk, k);
    } else {
      assert init == writes[..k];
    }
  }

  /** Some write names `n`. */
  predicate NameWritten<V>(writes: seq<LazyWrite<V>>, n: string) {
    exists i :: 0 <= i < |writes| && writes[i].name == n
  }

  /** A successful write loop leaves the object with exactly its old properties plus the written names. */
  lemma {:induction false} WriteAllKeys<V>(cls: ClassInfo, obj: map<string, V>, writes: seq<LazyWrite<V>>,
                                           typeOk: (string, V) -> bool)
    requires WriteAll(cls, obj, writes, typeOk).outcome.Pass?
    ensures forall n :: n in WriteAll(cls, obj, writes, typeOk).values <==> n in obj || NameWritten(writes, n)
    decreases |writes|
  {
    if writes != [] {
      var init := writes[..|writes| - 1];
      WriteAllKeys(cls, obj, init, typeOk);
      forall n | NameWritten(writes, n)
        ensures n == writes[|writes| - 1].name || NameWritten(init, n)
      {
        var i :| 0 <= i < |writes| && writes[i].name == n;
        if i < |init| { assert init[i] == writes[i]; }
      }
      forall n | NameWritten(init, n)
        ensures NameWritten(writes, n)
      {
        var i :| 0 <= i < |init| && init[i].name == n;
        assert writes[i] == init[i];
      }
    }
  }

  /**
   * The write loop succeeds exactly when every write is accepted in its turn: a readonly property
   * that already holds a value, or is written a second time, makes it throw.
   */
  lemma {:induction false} WriteAllPassesIff<V>(cls: ClassInfo, obj: map<string, V>, writes: seq<LazyWrite<V>>,
                                                typeOk: (string, V) -> bool)
    ensures WriteAll(cls, obj, writes, typeOk).outcome.Pass? <==> AllWritable(cls, obj, writes, typeOk)
    decreases |writes|
  {
    if writes != [] {
      var k := |writes| - 1;
      var init := writes[..k];
      var last := writes[k];
      WriteAllPassesIff(cls, obj, init, typeOk);
      assert forall i :: 0 <= i < k ==> init[i] == writes[i];
      assert forall i :: 0 <= i < k ==> (FirstWriteOf(init, i) <==> FirstWriteOf(writes, i));
      assert AllWritable(cls, obj, writes, typeOk) <==>
        && AllWritable(cls, obj, init, typeOk)
        && typeOk(last.name, last.value)
        && (cls.IsReadonly(last.name) ==> last.name !in obj && FirstWriteOf(writes, k));
      var prior := WriteAll(cls, obj, init, typeOk);
      if prior.outcome.Pass? {
        WriteAllKeys(cls, obj, init, typeOk);
        assert FirstWriteOf(writes, k) <==> !NameWritten(init, last.name) by {
          if NameWritten(init, last.name) {
            var j :| 0 <= j < k && init[j].name == last.name;
            assert writes[j].name == last.name;
          }
        }
      }
    }
  }

  /** Item `i` is the last one yielded under its name. */
  predicate LastYieldOf<V>(items: seq<Yielded<V>>, i: nat)
    requires i < |items| && items[i].Property?
  {
    forall j :: i < j < |items| && items[j].Property? ==> items[j].name != items[i].name
  }

  predicate LastWriteOf<V>(writes: seq<LazyWrite<V>>, i: nat)
    requires i < |writes|
  {
    forall j :: i < j < |writes| ==> writes[j].name != writes[i].name
  }

  /** After a successful write loop each written name holds the value written last under it. */
  lemma {:induction false} WriteAllLastValues<V>(cls: ClassInfo, obj: map<string, V>, writes: seq<LazyWrite<V>>,
                                                 typeOk: (string, V) -> bool)
    requires WriteAll(cls, obj, writes, typeOk).outcome.Pass?
    ensures forall i :: 0 <= i < |writes| && LastWriteOf(writes, i)
              ==> writes[i].name in WriteAll(cls, obj, writes, typeOk).values
                  && WriteAll(cls, obj, writes, typeOk).values[writes[i].name] == writes[i].value
    decreases |writes|
  {
    if writes != [] {
      var init := writes[..|writes| - 1];
      WriteAllLastValues(cls, obj, init, typeOk);
      forall i | 0 <= i < |writes| - 1 && LastWriteOf(writes, i)
        ensures LastWriteOf(init, i) && init[i] == writes[i]
      {
      }
    }
  }

  /** After a successful write loop a property no write names keeps its old value. */
  lemma {:induction false} WriteAllUntouched<V>(cls: ClassInfo, obj: map<string, V>, writes: seq<LazyWrite<V>>,
                                                typeOk: (string, V) -> bool)
    requires WriteAll(cls, obj, writes, typeOk).outcome.Pass?
    ensures forall n :: n in obj && (forall i :: 0 <= i < |writes| ==> writes[i].name != n)
              ==> n in WriteAll(cls, obj, writes, typeOk).values && WriteAll(cls, obj, writes, typeOk).values[n] == obj[n]
    decreases |writes|
  {
    if writes != [] {
      var init := writes[..|writes| - 1];
      WriteAllUntouched(cls, obj, init, typeOk);
      forall n | n in obj && (forall i :: 0 <= i < |writes| ==> writes[i].name != n)
        ensures forall i :: 0 <= i < |init| ==> init[i].name != n
      {
        forall i | 0 <= i < |init| ensures init[i].name != n { assert init[i] == writes[i]; }
      }
    }
  }

  /**
   * A successful run writes the yielded values in yield order: each yielded name ends up holding
   * the value yielded last under it, properties never yielded keep their values, and no property
   * other than the old ones and the yielded ones appears.
   */
  lemma SuccessfulInitializationValues<V>(d: Deferred, items: seq<Yielded<V>>, obj: map<string, V>,
                                          typeOk: (string, V) -> bool)
    requires Initialize(d, items, obj, typeOk).outcome.Pass?
    ensures forall i :: 0 <= i < |items| ==> items[i].Property? && items[i].name in Initialize(d, items, obj, typeOk).values
    ensures forall i :: 0 <= i < |items| && items[i].Property? && LastYieldOf(items, i)
              ==> Initialize(d, items, obj, typeOk).values[items[i].name] == items[i].value
    ensures forall n :: n in obj && (forall i :: 0 <= i < |items| ==> items[i] != Property(n, items[i].value))
              ==> n in Initialize(d, items, obj, typeOk).values && Initialize(d, items, obj, typeOk).values[n] == obj[n]
    ensures forall n :: n in Initialize(d, items, obj, typeOk).values
              ==> n in obj || exists i :: 0 <= i < |items| && items[i] == Property(n, items[i].value)
  {
    var writes := Collect(d.cls, items).value;
    WriteAllKeys(d.cls, obj, writes, typeOk);
    WriteAllLastValues(d.cls, obj, writes, typeOk);
    WriteAllUntouched(d.cls, obj, writes, typeOk);
    forall i | 0 <= i < |items| && items[i].Property? && LastYieldOf(items, i)
      ensures LastWriteOf(writes, i)
    {
      forall j | i < j < |writes| ensures writes[j].name != writes[i].name {
        assert items[j] == Property(writes[j].name, writes[j].value);
      }
    }
    forall i | 0 <= i < |items| ensures items[i].Property? && items[i].name in Initialize(d, items, obj, typeOk).values {
      assert writes[i].name == items[i].name;
    }
    forall n | n in obj && (forall i :: 0 <= i < |items| ==> items[i] != Property(n, items[i].value))
      ensures forall i :: 0 <= i < |writes| ==> writes[i].name != n
    {
      forall i | 0 <= i < |writes| ensures writes[i].name != n {
        assert items[i] == Property(writes[i].name, writes[i].value);
      }
    }
    forall n | n in Initialize(d, items, obj, typeOk).values && n !in obj
      ensures exists i :: 0 <= i < |items| && items[i] == Property(n, items[i].value)
    {
      var i :| 0 <= i < |writes| && writes[i].name == n;
      assert items[i] == Property(writes[i].name, writes[i].value);
    }
  }

  /** Two writes in a row, each checked against the object as the previous one left it. */
  lemma WriteTwo<V>(cls: ClassInfo, obj: map<string, V>, first: LazyWrite<V>, second: LazyWrite<V>,
                    typeOk: (string, V) -> bool)
    requires CanWrite(cls, obj, first, typeOk)
    ensures var after := obj[first.name := first.value];
      WriteAll(cls, obj, [first, second], typeOk)
      == if CanWrite(cls, after, second, typeOk) then Written(after[second.name := second.value], Pass)
         else Written(after, Fail(LazyTypeMismatch))
  {
    var writes := [first, second];
    assert writes[..0] == [];
    WriteAllStep(cls, obj, writes, typeOk, 0);
    assert writes[..1] == [first];
    assert writes[..2] == writes;
  }

  /**
   * Only the number of yielded properties is compared, not their names: with two writable lazy
   * properties, yielding the first one twice passes and the second one is never written.
   */
  lemma CountComparedNotNames(a: string, b: string, lazyTag: Attribute, source: Closure)
    requires a != b && LazyAttributeClass in lazyTag.instanceOf
    ensures var cls := ClassInfo([PropertyInfo(a, [lazyTag], false, false), PropertyInfo(b, [lazyTag], false, false)]);
      var d := Deferred(cls, source, |LazyOf(cls.properties, None)|);
      var r := Initialize(d, [Property(a, 1), Property(a, 2)], map[], (n: string, v: int) => true);
      && d.lazyCount == 2
      && r.outcome == Pass && b !in r.values && r.values[a] == 2
  {
    var cls := ClassInfo([PropertyInfo(a, [lazyTag], false, false), PropertyInfo(b, [lazyTag], false, false)]);
    TwoTaggedPropertiesAreLazy(cls, lazyTag);
    CollectRepeatedName(cls, a, 1, 2);
    assert !cls.IsReadonly(a);
    WriteTwo(cls, map[], LazyWrite(a, 1), LazyWrite(a, 2), (n: string, v: int) => true);
    assert map[a := 1][a := 2] == map[a := 2];
  }

  /**
   * The same repeated yield against readonly properties, as every property of a readonly class is:
   * the count check passes, and the second raw write throws, which the closure reports as a type mismatch.
   */
  lemma ReadonlyYieldedTwiceRejected(a: string, b: string, lazyTag: Attribute, source: Closure)
    requires a != b && LazyAttributeClass in lazyTag.instanceOf
    ensures var cls := ClassInfo([PropertyInfo(a, [lazyTag], false, true), PropertyInfo(b, [lazyTag], false, true)]);
      var d := Deferred(cls, source, |LazyOf(cls.properties, None)|);
      var r := Initialize(d, [Property(a, 1), Property(a, 2)], map[], (n: string, v: int) => true);
      && d.lazyCount == 2
      && r.outcome == Fail(LazyTypeMismatch)
  {
    var cls := ClassInfo([PropertyInfo(a, [lazyTag], false, true), PropertyInfo(b, [lazyTag], false, true)]);
    TwoTaggedPropertiesAreLazy(cls, lazyTag);
    CollectRepeatedName(cls, a, 1, 2);
    assert cls.IsReadonly(a);
    WriteTwo(cls, map[], LazyWrite(a, 1), LazyWrite(a, 2), (n: string, v: int) => true);
  }

  /**
   * A readonly property that already holds a value (written eagerly) cannot be yielded: the raw
   * write throws even though the count matches and the type accepts the value.
   */
  lemma ReadonlyEagerValueNotRewritten<V>(d: Deferred, items: seq<Yielded<V>>, obj: map<string, V>,
                                          typeOk: (string, V) -> bool, k: nat)
    requires k < |items| && items[k].Property? && d.cls.IsReadonly(items[k].name) && items[k].name in obj
    ensures Initialize(d, items, obj, typeOk).outcome.Fail?
  {
  }

  lemma TwoTaggedPropertiesAreLazy(cls: ClassInfo, lazyTag: Attribute)
    requires LazyAttributeClass in lazyTag.instanceOf
    requires |cls.properties| == 2 && cls.properties[0].attributes == cls.properties[1].attributes == [lazyTag]
    ensures |LazyOf(cls.properties, None)| == 2
  {
    assert IsLazyAttribute(cls.properties[0].attributes[0], None);
    assert IsLazyAttribute(cls.properties[1].attributes[0], None);
    FilterKeepsAll(cls.properties, (p: PropertyInfo) => IsLazyTagged(p, None));
  }

  lemma CollectRepeatedName<V>(cls: ClassInfo, a: string, first: V, second: V)
    requires cls.HasProperty(a)
    ensures Collect(cls, [Property(a, first), Property(a, second)]) == Success([LazyWrite(a, first), LazyWrite(a, second)])
  {
    var items: seq<Yielded<V>> := [Property(a, first), Property(a, second)];
    assert items[..0] == [];
    CollectStep(cls, items, 0, []);
    assert [] + [LazyWrite(a, first)] == [LazyWrite(a, first)];
    CollectStep(cls, items, 1, [LazyWrite(a, first)]);
    assert [LazyWrite(a, first)] + [LazyWrite(a, second)] == [LazyWrite(a, first), LazyWrite(a, second)];
    assert items[..2] == items;
  }
}
