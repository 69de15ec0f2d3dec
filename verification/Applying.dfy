/** Driving the live MultiNetworkPolicy to the desired one (internal/controller/networkpolicy_create.go:16-72). */
module Applying {
  import opened Policy

  /** The parts of a MultiNetworkPolicy the operator writes. */
  datatype Manifest = Manifest(
    labels: map<string, string>, annotations: map<string, string>, selector: Selector, egress: seq<Rule>)

  datatype Operation = ObjectCreated | ObjectUpdated | NoChange | ApplyError

  /** Delete what is not wanted, then write what is, both in the order of a map iteration. */
  method DriveMap(current: map<string, string>, desired: map<string, string>) returns (m: map<string, string>)
    ensures m == desired
  {
    m := current;
    var todo := current.Keys;
    while todo != {}
      invariant m.Keys <= todo + desired.Keys
    {
      var k :| k in todo;
      todo := todo - {k};
      if k !in desired {
        m := m - {k};
      }
    }
    todo := desired.Keys;
    while todo != {}
      invariant todo <= desired.Keys && m.Keys <= desired.Keys
      invariant forall k :: k in desired && k !in todo ==> k in m && m[k] == desired[k]
    {
      var k :| k in todo;
      todo := todo - {k};
      m := m[k := desired[k]];
    }
  }

  /** The object being created or updated. */
  class LiveObject {
    var labels: map<string, string>
    var annotations: map<string, string>
    var selector: Selector
    var egress: seq<Rule>

    function View(): Manifest
      reads this
    {
      Manifest(labels, annotations, selector, egress)
    }

    constructor (m: Manifest)
      ensures View() == m
    {
      labels, annotations, selector, egress := m.labels, m.annotations, m.selector, m.egress;
    }

    /** The mutate closure: whatever the object was, it becomes the desired one. */
    method Mutate(desired: Manifest)
      modifies this
      ensures View() == desired
    {
      labels := DriveMap(labels, desired.labels);
      annotations := DriveMap(annotations, desired.annotations);
      if selector != desired.selector || egress != desired.egress {
        selector, egress := desired.selector, desired.egress;
      }
    }
  }

  /** What the API server stores: the status of the policy and the object made for it. */
  class Cluster<S> {
    var status: S
    var live: Option<Manifest>

    constructor (status: S, live: Option<Manifest>)
      ensures this.status == status && this.live == live
    {
      this.status, this.live := status, live;
    }

    /** `CreateOrUpdate`; `fails` stands for an error of the API server. */
    method CreateOrUpdate(desired: Manifest, fails: bool) returns (op: Operation)
      modifies this`live
      ensures live == if fails then old(live) else Some(desired)
      ensures op == ApplyError <==> fails
      ensures op == ObjectCreated <==> !fails && old(live) == None
      ensures op == NoChange <==> !fails && old(live) == Some(desired)
    {
      if fails {
        return ApplyError;
      }
      if live.None? {
        var current := new LiveObject(Manifest(map[], map[], Selector(map[], []), []));
        current.Mutate(desired);
        live := Some(current.View());
        return ObjectCreated;
      }
      var current := new LiveObject(live.value);
      current.Mutate(desired);
      if current.View() == live.value {
        return NoChange;
      }
      live := Some(current.View());
      return ObjectUpdated;
    }
  }
}
