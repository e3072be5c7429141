/** The `Aggregate` proxy: an ordered list of targets presented as one object.

    The specification functions come first (the union of declared protocols,
    the priority scan and the three answers the aggregate gives); the class
    `Aggregate` follows, with the lazily recomputed protocol cache and the
    three read-only scans proved against those functions. */
module Aggregation {
  import opened ObjCRuntime

  // ---------------------------------------------------------------------------
  // Specification

  /** The elements of a sequence, as a set. */
  function Elements<T>(s: seq<T>): set<T>
  {
    set x | x in s
  }

  /** No element occurs twice. */
  predicate NoDuplicates<T(==)>(s: seq<T>)
  {
    forall i, j :: 0 <= i < j < |s| ==> s[i] != s[j]
  }

  /** `ps` lists exactly the protocols of `u`, each once, in some order. */
  predicate IsProtocolListOf(ps: seq<Protocol>, u: set<Protocol>)
  {
    NoDuplicates(ps) && Elements(ps) == u
  }

  /** The protocols the targets' classes list, accumulated target by target
      in the order `reduce(into:)` visits them. */
  function ProtocolUnion(rt: Runtime, targets: seq<Object>): set<Protocol>
    decreases |targets|
  {
    if targets == [] then {}
    else ProtocolUnion(rt, targets[..|targets| - 1]) + DeclaredSet(rt, targets[|targets| - 1])
  }

  /** Some target conforms to `p` (runtime conformance, inherited protocols included). */
  predicate SomeTargetConforms(rt: Runtime, targets: seq<Object>, p: Protocol)
  {
    exists i :: 0 <= i < |targets| && rt.conforms(targets[i], p)
  }

  /** Some target responds to `s`. */
  predicate SomeTargetResponds(rt: Runtime, targets: seq<Object>, s: Selector)
  {
    exists i :: 0 <= i < |targets| && rt.responds(targets[i], s)
  }

  /** What `conforms(to:)` answers: a target conforms, or the superclass does. */
  predicate Conforms(rt: Runtime, targets: seq<Object>, p: Protocol)
  {
    SomeTargetConforms(rt, targets, p) || rt.superConforms(p)
  }

  /** What `responds(to:)` answers: a target responds, or the superclass or
      every `NSObject` instance does. */
  predicate Responds(rt: Runtime, targets: seq<Object>, s: Selector)
  {
    SomeTargetResponds(rt, targets, s) || rt.superResponds(s) || rt.instancesRespond(s)
  }

  /** The index of the highest-priority target that responds to `s`. */
  function FirstResponder(rt: Runtime, targets: seq<Object>, s: Selector): (r: Option<nat>)
    ensures r.Some? ==> r.value < |targets| && rt.responds(targets[r.value], s)
    ensures r.Some? ==> forall j :: 0 <= j < r.value ==> !rt.responds(targets[j], s)
    ensures r.None? <==> !SomeTargetResponds(rt, targets, s)
    decreases |targets|
  {
    if targets == [] then None
    else if rt.responds(targets[0], s) then Some(0)
    else
      match FirstResponder(rt, targets[1..], s)
      case None => None
      case Some(k) => Some(k + 1)
  }

  /** The outcome of `forwardingTarget(for:)`: a target, or the answer of
      `super.forwardingTarget(for:)` (nil for `NSObject`). */
  datatype Forwarding = ForwardTo(target: Object) | DeferToSuper

  /** Where a message for `s` is forwarded. */
  function ForwardingOf(rt: Runtime, targets: seq<Object>, s: Selector): Forwarding
  {
    match FirstResponder(rt, targets, s)
    case None => DeferToSuper
    case Some(i) => ForwardTo(targets[i])
  }

  // ---------------------------------------------------------------------------
  // The identity-keyed dictionary of the `conformingProtocols` getter

  /** Every entry is keyed by its own protocol's identity.  Protocol equality
      is identity, so `ObjectIdentifier(p)` is modelled as `p` itself. */
  ghost predicate IsIdentityKeyed(dict: map<Protocol, Protocol>)
  {
    forall k :: k in dict ==> dict[k] == k
  }

  /** The inner `forEach` over one target's protocol list: each protocol is
      entered under its identity unless an entry for it is already there,
      so the first entry for a key is the one kept. */
  method InsertProtocols(dict: map<Protocol, Protocol>, protocols: seq<Protocol>)
    returns (d: map<Protocol, Protocol>)
    requires IsIdentityKeyed(dict)
    ensures IsIdentityKeyed(d)
    ensures d.Keys == dict.Keys + Elements(protocols)
    ensures forall k :: k in dict ==> d[k] == dict[k]
  {
    d := dict;
    for j := 0 to |protocols|
      invariant IsIdentityKeyed(d)
      invariant d.Keys == dict.Keys + Elements(protocols[..j])
      invariant forall k :: k in dict ==> d[k] == dict[k]
    {
      var p := protocols[j];
      if p !in d {
        d := d[p := p];
      }
      assert protocols[..j + 1] == protocols[..j] + [p];
    }
    assert protocols[..|protocols|] == protocols;
  }

  /** `Array(dict.values)`: every value once, in an order the dictionary
      chooses. */
  method DictionaryValues(dict: map<Protocol, Protocol>) returns (ps: seq<Protocol>)
    requires IsIdentityKeyed(dict)
    ensures IsProtocolListOf(ps, dict.Keys)
  {
    var rest := dict.Keys;
    ps := [];
    while rest != {}
      invariant NoDuplicates(ps)
      invariant Elements(ps) !! rest
      invariant Elements(ps) + rest == dict.Keys
      decreases |rest|
    {
      var k :| k in rest;
      assert Elements(ps + [dict[k]]) == Elements(ps) + {k};
      ps := ps + [dict[k]];
      rest := rest - {k};
    }
  }

  // ---------------------------------------------------------------------------
  // The class

  /** A dynamic object made of several targets.  `needsUpdateConformingProtocols`
      and `conformingProtocolsCache` are the source's `needsUpdateConformingProtocols`
      and `_conformingProtocols`; `rt` is the runtime the object lives in. */
  class Aggregate {
    const rt: Runtime
    var targets: seq<Object>
    var needsUpdateConformingProtocols: bool
    var conformingProtocolsCache: seq<Protocol>

    /** Cache coherence: a cache not marked stale lists exactly the protocols
        of the current targets, each once. */
    ghost predicate Valid()
      reads this
    {
      !needsUpdateConformingProtocols ==>
        IsProtocolListOf(conformingProtocolsCache, ProtocolUnion(rt, targets))
    }

    /** `init(of:)`: the targets are stored as given; the cache starts stale. */
    constructor (rt: Runtime, targets: seq<Object>)
      ensures Valid()
      ensures this.rt == rt && this.targets == targets
      ensures needsUpdateConformingProtocols && conformingProtocolsCache == []
    {
      this.rt := rt;
      this.targets := targets;
      needsUpdateConformingProtocols := true;
      conformingProtocolsCache := [];
    }

    /** `init()`: an aggregate of no targets. */
    constructor Empty(rt: Runtime)
      ensures Valid()
      ensures this.rt == rt && targets == []
      ensures needsUpdateConformingProtocols && conformingProtocolsCache == []
    {
      this.rt := rt;
      targets := [];
      needsUpdateConformingProtocols := true;
      conformingProtocolsCache := [];
    }

    /** Assigning `targets`: the list is stored exactly as given and the
        `didSet` observer marks the cache stale; the cache itself is kept. */
    method SetTargets(newTargets: seq<Object>)
      modifies this
      ensures targets == newTargets
      ensures needsUpdateConformingProtocols
      ensures conformingProtocolsCache == old(conformingProtocolsCache)
      ensures Valid()
    {
      targets := newTargets;
      needsUpdateConformingProtocols := true;
    }

    /** Assigning `_conformingProtocols`: the value is stored and the `didSet`
        observer marks the cache fresh.  The setter is private to the class and
        is only given a recomputed list, which the precondition states. */
    method SetConformingProtocolsCache(ps: seq<Protocol>)
      requires IsProtocolListOf(ps, ProtocolUnion(rt, targets))
      modifies this
      ensures Valid()
      ensures conformingProtocolsCache == ps
      ensures !needsUpdateConformingProtocols
      ensures targets == old(targets)
    {
      conformingProtocolsCache := ps;
      needsUpdateConformingProtocols := false;
    }

    /** The recomputation inside the `conformingProtocols` getter: a dictionary
        keyed by protocol identity is filled target by target (`reduce(into:)`),
        a target without a protocol list adding nothing, and its values are
        turned into an array. */
    method CollectConformingProtocols() returns (ps: seq<Protocol>)
      ensures IsProtocolListOf(ps, ProtocolUnion(rt, targets))
    {
      var dict: map<Protocol, Protocol> := map[];
      var i := 0;
      while i < |targets|
        invariant 0 <= i <= |targets|
        invariant IsIdentityKeyed(dict)
        invariant dict.Keys == ProtocolUnion(rt, targets[..i])
      {
        assert targets[..i + 1][..i] == targets[..i];
        match rt.declaredProtocols(targets[i]) {
          case None =>
          case Some(protocols) =>
            dict := InsertProtocols(dict, protocols);
        }
        i := i + 1;
      }
      assert targets[..i] == targets;
      ps := DictionaryValues(dict);
    }

    /** The `conformingProtocols` getter: a fresh cache is returned as is;
        a stale one is recomputed from the current targets and stored, which
        marks it fresh. */
    method ConformingProtocols() returns (ps: seq<Protocol>)
      requires Valid()
      modifies this
      ensures Valid()
      ensures IsProtocolListOf(ps, ProtocolUnion(rt, targets))
      ensures !needsUpdateConformingProtocols && conformingProtocolsCache == ps
      ensures targets == old(targets)
      ensures !old(needsUpdateConformingProtocols) ==> ps == old(conformingProtocolsCache)
    {
      if !needsUpdateConformingProtocols {
        return conformingProtocolsCache;
      }
      var collected := CollectConformingProtocols();
      SetConformingProtocolsCache(collected);
      ps := conformingProtocolsCache;
    }

    /** `conforms(to:)`: the targets are asked in order, then the superclass. */
    method ConformsTo(p: Protocol) returns (b: bool)
      ensures b == Conforms(rt, targets, p)
    {
      for i := 0 to |targets|
        invariant forall j :: 0 <= j < i ==> !rt.conforms(targets[j], p)
      {
        if rt.conforms(targets[i], p) {
          return true;
        }
      }
      b := rt.superConforms(p);
    }

    /** `responds(to:)`: the targets are asked in order, then the superclass
        and `NSObject`'s instances. */
    method RespondsTo(s: Selector) returns (b: bool)
      ensures b == Responds(rt, targets, s)
    {
      for i := 0 to |targets|
        invariant forall j :: 0 <= j < i ==> !rt.responds(targets[j], s)
      {
        if rt.responds(targets[i], s) {
          return true;
        }
      }
      b := rt.superResponds(s) || rt.instancesRespond(s);
    }

    /** `forwardingTarget(for:)`: the first target that responds, else the
        superclass's answer. */
    method ForwardingTarget(s: Selector) returns (f: Forwarding)
      ensures f == ForwardingOf(rt, targets, s)
    {
      for i := 0 to |targets|
        invariant forall j :: 0 <= j < i ==> !rt.responds(targets[j], s)
      {
        if rt.responds(targets[i], s) {
          return ForwardTo(targets[i]);
        }
      }
      f := DeferToSuper;
    }
  }
}
