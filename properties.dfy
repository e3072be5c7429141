/** Properties of the aggregate's specification: what `conformingProtocols`
    contains, how the priority scan resolves a selector, and how the three
    answers of the aggregate agree with one another. */
module AggregateProperties {
  import opened ObjCRuntime
  import opened Aggregation

  // ---------------------------------------------------------------------------
  // The protocol union

  /** A protocol is in the union exactly when some target's class lists it. */
  lemma {:induction false} UnionMembership(rt: Runtime, targets: seq<Object>, p: Protocol)
    ensures p in ProtocolUnion(rt, targets)
        <==> exists i :: 0 <= i < |targets| && Declares(rt, targets[i], p)
    decreases |targets|
  {
    if targets != [] {
      var n := |targets| - 1;
      var front := targets[..n];
      UnionMembership(rt, front, p);
      if p in ProtocolUnion(rt, targets) {
        if p !in DeclaredSet(rt, targets[n]) {
          var i :| 0 <= i < |front| && Declares(rt, front[i], p);
          assert targets[i] == front[i];
        }
      } else {
        forall i | 0 <= i < |targets| ensures !Declares(rt, targets[i], p) {
          if i < n {
            assert targets[i] == front[i];
          }
        }
      }
    }
  }

  /** Concatenating target lists unites their protocols. */
  lemma {:induction false} UnionAppend(rt: Runtime, a: seq<Object>, b: seq<Object>)
    ensures ProtocolUnion(rt, a + b) == ProtocolUnion(rt, a) + ProtocolUnion(rt, b)
    decreases |b|
  {
    if b == [] {
      assert a + b == a;
    } else {
      var n := |b| - 1;
      assert (a + b)[..|a + b| - 1] == a + b[..n];
      assert (a + b)[|a + b| - 1] == b[n];
      UnionAppend(rt, a, b[..n]);
    }
  }

  /** The union depends only on which objects are targets: neither their
      order nor repetitions matter. */
  lemma UnionDependsOnlyOnElements(rt: Runtime, a: seq<Object>, b: seq<Object>)
    requires Elements(a) == Elements(b)
    ensures ProtocolUnion(rt, a) == ProtocolUnion(rt, b)
  {
    forall p ensures p in ProtocolUnion(rt, a) <==> p in ProtocolUnion(rt, b) {
      UnionMembership(rt, a, p);
      UnionMembership(rt, b, p);
      if p in ProtocolUnion(rt, a) {
        var i :| 0 <= i < |a| && Declares(rt, a[i], p);
        assert a[i] in Elements(b);
        var j :| 0 <= j < |b| && b[j] == a[i];
      }
      if p in ProtocolUnion(rt, b) {
        var j :| 0 <= j < |b| && Declares(rt, b[j], p);
        assert b[j] in Elements(a);
        var i :| 0 <= i < |a| && a[i] == b[j];
      }
    }
  }

  /** A target whose protocol list is unavailable contributes nothing,
      wherever it stands in the list. */
  lemma UnavailableListContributesNothing(rt: Runtime, a: seq<Object>, t: Object, b: seq<Object>)
    requires rt.declaredProtocols(t).None?
    ensures ProtocolUnion(rt, a + [t] + b) == ProtocolUnion(rt, a + b)
  {
    UnionAppend(rt, a + [t], b);
    UnionAppend(rt, a, [t]);
    UnionAppend(rt, a, b);
    SingleTargetUnion(rt, t);
  }

  /** A list without duplicates has as many entries as distinct elements, so
      `conformingProtocols` has one entry per protocol of the union. */
  lemma {:induction false} NoDuplicatesLength<T>(s: seq<T>)
    requires NoDuplicates(s)
    ensures |Elements(s)| == |s|
    decreases |s|
  {
    if s != [] {
      var n := |s| - 1;
      assert NoDuplicates(s[..n]);
      NoDuplicatesLength(s[..n]);
      assert Elements(s) == Elements(s[..n]) + {s[n]} by {
        assert s == s[..n] + [s[n]];
      }
      assert s[n] !in Elements(s[..n]);
    }
  }

  /** A single target lists exactly its class's protocols. */
  lemma SingleTargetUnion(rt: Runtime, t: Object)
    ensures ProtocolUnion(rt, [t]) == DeclaredSet(rt, t)
  {
  }

  /** When every listed protocol is one the object conforms to (the runtime
      never lists a protocol it then denies), the aggregate conforms to every
      protocol it lists. */
  lemma ListedProtocolsAreConformedTo(rt: Runtime, targets: seq<Object>, p: Protocol)
    requires forall o, q :: Declares(rt, o, q) ==> rt.conforms(o, q)
    requires p in ProtocolUnion(rt, targets)
    ensures Conforms(rt, targets, p)
  {
  }

  // ---------------------------------------------------------------------------
  // The priority scan

  /** The target chosen for `s` is the one at the lowest index that responds:
      it responds, no target before it does, and every responding target
      stands at or after it. */
  lemma ForwardingIsFirstResponder(rt: Runtime, targets: seq<Object>, s: Selector, i: nat)
    requires i < |targets| && rt.responds(targets[i], s)
    ensures FirstResponder(rt, targets, s).Some?
    ensures FirstResponder(rt, targets, s).value <= i
    ensures ForwardingOf(rt, targets, s) == ForwardTo(targets[FirstResponder(rt, targets, s).value])
  {
  }

  /** No responding target means the superclass decides. */
  lemma NoResponderDefersToSuper(rt: Runtime, targets: seq<Object>, s: Selector)
    ensures ForwardingOf(rt, targets, s) == DeferToSuper
        <==> forall i :: 0 <= i < |targets| ==> !rt.responds(targets[i], s)
  {
  }

  /** Appending lower-priority targets never changes a choice already made;
      otherwise the choice is the first responder among the new targets. */
  lemma {:induction false} FirstResponderAppend(rt: Runtime, a: seq<Object>, b: seq<Object>, s: Selector)
    ensures FirstResponder(rt, a + b, s)
         == match FirstResponder(rt, a, s)
            case Some(i) => Some(i)
            case None =>
              match FirstResponder(rt, b, s)
              case Some(j) => Some(|a| + j)
              case None => None
    decreases |a|
  {
    if a == [] {
      assert a + b == b;
    } else {
      assert (a + b)[0] == a[0];
      assert (a + b)[1..] == a[1..] + b;
      FirstResponderAppend(rt, a[1..], b, s);
    }
  }

  /** Putting a responding target in front makes it the one chosen. */
  lemma PrependedResponderWins(rt: Runtime, t: Object, targets: seq<Object>, s: Selector)
    requires rt.responds(t, s)
    ensures ForwardingOf(rt, [t] + targets, s) == ForwardTo(t)
  {
  }

  /** A single target is chosen exactly for the selectors it responds to. */
  lemma SingleTargetForwarding(rt: Runtime, t: Object, s: Selector)
    ensures ForwardingOf(rt, [t], s) == if rt.responds(t, s) then ForwardTo(t) else DeferToSuper
  {
  }

  // ---------------------------------------------------------------------------
  // Agreement of the three answers

  /** A message forwarded to a target goes to one of the aggregate's own
      targets, which responds to it, so the aggregate responds too. */
  lemma ForwardedImpliesResponds(rt: Runtime, targets: seq<Object>, s: Selector, t: Object)
    requires ForwardingOf(rt, targets, s) == ForwardTo(t)
    ensures t in targets && rt.responds(t, s)
    ensures Responds(rt, targets, s)
  {
  }

  /** The aggregate denies a selector exactly when the message is not
      forwarded and neither baseline check accepts it. */
  lemma RespondsFalseExactly(rt: Runtime, targets: seq<Object>, s: Selector)
    ensures !Responds(rt, targets, s)
        <==> ForwardingOf(rt, targets, s) == DeferToSuper
             && !rt.superResponds(s) && !rt.instancesRespond(s)
  {
  }

  /** An empty aggregate lists no protocol, conforms and responds only as its
      superclass does, and forwards nothing. */
  lemma EmptyAggregateIsBaseline(rt: Runtime, p: Protocol, s: Selector)
    ensures ProtocolUnion(rt, []) == {}
    ensures Conforms(rt, [], p) == rt.superConforms(p)
    ensures Responds(rt, [], s) == (rt.superResponds(s) || rt.instancesRespond(s))
    ensures ForwardingOf(rt, [], s) == DeferToSuper
  {
  }
}
