/** The part of the Objective-C runtime that an aggregate consults.

    Objects, protocols and selectors are opaque: the aggregate only compares
    them by identity.  Every runtime query the aggregate makes becomes a field
    of a `Runtime` value, so the model holds for every runtime that answers
    those queries in some way. */
module ObjCRuntime {

  /** An Objective-C object reference (a target); `==` is reference identity. */
  type Object(==, !new)

  /** A protocol object; `==` is identity, which is what `ObjectIdentifier` keys on. */
  type Protocol(==, !new)

  /** A method selector. */
  type Selector(==, !new)

  datatype Option<+T> = None | Some(value: T)

  /** The runtime catalog.
      - `declaredProtocols(o)`: the protocol list of `o`'s class as
        `class_copyProtocolList` reports it, or `None` when that call (or
        `object_getClass`) yields nil.  It lists only the protocols the class
        itself adopts.
      - `conforms(o, p)`, `responds(o, s)`: `o.conforms(to:)`, `o.responds(to:)`;
        `conforms` also sees inherited protocols, so it is a separate relation.
      - `superConforms(p)`, `superResponds(s)`: what the aggregate's `NSObject`
        superclass answers for itself.
      - `instancesRespond(s)`: `NSObject.instancesRespond(to:)`. */
  datatype Runtime = Runtime(
    declaredProtocols: Object -> Option<seq<Protocol>>,
    conforms: (Object, Protocol) -> bool,
    responds: (Object, Selector) -> bool,
    superConforms: Protocol -> bool,
    superResponds: Selector -> bool,
    instancesRespond: Selector -> bool)

  /** `o`'s class lists protocol `p` among its own protocols. */
  predicate Declares(rt: Runtime, o: Object, p: Protocol)
  {
    rt.declaredProtocols(o).Some? && p in rt.declaredProtocols(o).value
  }

  /** Definition: the protocols `o`'s class lists, as a set; an unavailable
      list contributes nothing. */
  function DeclaredSet(rt: Runtime, o: Object): set<Protocol>
  {
    match rt.declaredProtocols(o)
    case None => {}
    case Some(ps) => set p | p in ps
  }
}
