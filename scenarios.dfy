/** The repository's test scenarios, stated for every runtime in which the
    example classes `Dog` (an `Animal` that says "Bark!") and `Duck` (an
    `Animal` and `EggLayer`) behave as they are written, and two client
    methods for the protocol cache. */
module AggregateScenarios {
  import opened ObjCRuntime
  import opened Aggregation
  import opened AggregateProperties

  /** The objects, protocols and selectors the tests use. */
  datatype Zoo = Zoo(
    dog: Object, duck: Object,
    animal: Protocol, eggLayer: Protocol, nsObjectProtocol: Protocol,
    sound: Selector, layEgg: Selector)

  /** `rt` is a runtime in which the test fixtures behave as declared:
      `Dog: NSObject, Animal` and `Duck: NSObject, Animal, EggLayer`, while the
      aggregate's own `NSObject` superclass conforms to `NSObjectProtocol`
      only and has neither `sound` nor `layEgg`. */
  predicate IsZooRuntime(rt: Runtime, z: Zoo)
  {
    && z.dog != z.duck
    && z.animal != z.eggLayer && z.animal != z.nsObjectProtocol && z.eggLayer != z.nsObjectProtocol
    && z.sound != z.layEgg
    && rt.declaredProtocols(z.dog) == Some([z.animal])
    && rt.declaredProtocols(z.duck) == Some([z.animal, z.eggLayer])
    && rt.conforms(z.dog, z.animal) && !rt.conforms(z.dog, z.eggLayer)
    && rt.conforms(z.duck, z.animal) && rt.conforms(z.duck, z.eggLayer)
    && rt.responds(z.dog, z.sound) && !rt.responds(z.dog, z.layEgg)
    && rt.responds(z.duck, z.sound) && rt.responds(z.duck, z.layEgg)
    && rt.superConforms(z.nsObjectProtocol)
    && !rt.superConforms(z.animal) && !rt.superConforms(z.eggLayer)
    && !rt.superResponds(z.sound) && !rt.superResponds(z.layEgg)
    && !rt.instancesRespond(z.sound) && !rt.instancesRespond(z.layEgg)
  }

  /** The empty aggregate conforms to `NSObjectProtocol` and nothing else. */
  method EmptyAggregateScenario(rt: Runtime, z: Zoo)
    returns (toAnimal: bool, toEggLayer: bool, toNSObject: bool)
    requires IsZooRuntime(rt, z)
    ensures !toAnimal && !toEggLayer && toNSObject
  {
    var agg := new Aggregate(rt, []);
    toAnimal := agg.ConformsTo(z.animal);
    toEggLayer := agg.ConformsTo(z.eggLayer);
    toNSObject := agg.ConformsTo(z.nsObjectProtocol);
  }

  /** An aggregate of a dog conforms to `Animal`, answers `sound` by
      forwarding it to the dog, and has no `layEgg`. */
  method OneTargetScenario(rt: Runtime, z: Zoo)
    returns (toAnimal: bool, toEggLayer: bool, toNSObject: bool,
             soundKnown: bool, layEggKnown: bool, soundGoesTo: Forwarding)
    requires IsZooRuntime(rt, z)
    ensures toAnimal && !toEggLayer && toNSObject
    ensures soundKnown && !layEggKnown
    ensures soundGoesTo == ForwardTo(z.dog)
  {
    var agg := new Aggregate(rt, [z.dog]);
    toAnimal := agg.ConformsTo(z.animal);
    toEggLayer := agg.ConformsTo(z.eggLayer);
    toNSObject := agg.ConformsTo(z.nsObjectProtocol);
    soundKnown := agg.RespondsTo(z.sound);
    layEggKnown := agg.RespondsTo(z.layEgg);
    soundGoesTo := agg.ForwardingTarget(z.sound);
  }

  /** An aggregate of a dog and a duck conforms to both protocols; `sound`
      goes to the dog, which comes first, and `layEgg` falls through to the
      duck.  Its protocol list is `Animal` and `EggLayer`, each once. */
  method TwoTargetScenario(rt: Runtime, z: Zoo)
    returns (toAnimal: bool, toEggLayer: bool, toNSObject: bool,
             soundKnown: bool, layEggKnown: bool,
             soundGoesTo: Forwarding, layEggGoesTo: Forwarding,
             protocols: seq<Protocol>)
    requires IsZooRuntime(rt, z)
    ensures toAnimal && toEggLayer && toNSObject
    ensures soundKnown && layEggKnown
    ensures soundGoesTo == ForwardTo(z.dog) && layEggGoesTo == ForwardTo(z.duck)
    ensures |protocols| == 2 && Elements(protocols) == {z.animal, z.eggLayer}
  {
    var agg := new Aggregate(rt, [z.dog, z.duck]);
    toAnimal := agg.ConformsTo(z.animal);
    toEggLayer := agg.ConformsTo(z.eggLayer);
    toNSObject := agg.ConformsTo(z.nsObjectProtocol);
    soundKnown := agg.RespondsTo(z.sound);
    layEggKnown := agg.RespondsTo(z.layEgg);
    soundGoesTo := agg.ForwardingTarget(z.sound);
    layEggGoesTo := agg.ForwardingTarget(z.layEgg);
    protocols := agg.ConformingProtocols();
    assert [z.dog, z.duck] == [z.dog] + [z.duck];
    UnionAppend(rt, [z.dog], [z.duck]);
    SingleTargetUnion(rt, z.dog);
    SingleTargetUnion(rt, z.duck);
    assert DeclaredSet(rt, z.dog) == {z.animal};
    assert DeclaredSet(rt, z.duck) == {z.animal, z.eggLayer};
    NoDuplicatesLength(protocols);
  }

  /** Reading `conformingProtocols` twice with no assignment to `targets` in
      between gives the same list, and the second read is served from the
      cache. */
  method ReadTwice(agg: Aggregate) returns (first: seq<Protocol>, second: seq<Protocol>)
    requires agg.Valid()
    modifies agg
    ensures first == second
    ensures agg.Valid() && !agg.needsUpdateConformingProtocols
    ensures agg.targets == old(agg.targets)
  {
    first := agg.ConformingProtocols();
    second := agg.ConformingProtocols();
  }

  /** After the targets are replaced, `conformingProtocols` lists the new
      targets' protocols exactly: nothing stale stays, nothing new is missed. */
  method RetargetThenRead(agg: Aggregate, newTargets: seq<Object>) returns (ps: seq<Protocol>)
    requires agg.Valid()
    modifies agg
    ensures agg.targets == newTargets
    ensures IsProtocolListOf(ps, ProtocolUnion(agg.rt, newTargets))
  {
    var before := agg.ConformingProtocols();
    agg.SetTargets(newTargets);
    ps := agg.ConformingProtocols();
  }
}
