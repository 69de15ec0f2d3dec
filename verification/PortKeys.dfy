/** The string keys and fingerprints that stand for ports and port sets
    (pkg/utils/networkpolicy.go:227-251), and when they identify them. */
module PortKeys {
  import opened Text
  import opened Sorting
  import opened Policy

  /** `getSinglePortKey`; the end port is not part of the key. */
  function PortKey(p: Port): string {
    ProtocolOf(p) + ":" + (if p.port.Some? then p.port.value.ToString() else "Any")
  }

  function AnyKey(protocol: string): string {
    protocol + ":Any"
  }

  /** Entries with equal keys are equal; beyond the key this fixes the end port. */
  ghost predicate KeysAgree(ports: set<Port>) {
    forall p, q :: p in ports && q in ports && PortKey(p) == PortKey(q) ==> p == q
  }

  /** The fingerprint of the ports with these keys. */
  ghost function KeysFingerprint(keys: set<string>): string {
    if keys == {} then "All ports" else Join(Ascending(keys), ',')
  }

  /** `getPortsFingerprint`: keys collected in a loop, sorted, joined. */
  method PortsFingerprint(ports: seq<Port>) returns (f: string)
    requires NoDuplicates(Keys(ports))
    ensures f == KeysFingerprint(Elements(Keys(ports)))
  {
    if |ports| == 0 {
      return "All ports";
    }
    var tmp: seq<string> := [];
    for i := 0 to |ports|
      invariant tmp == Keys(ports)[..i]
    {
      tmp := tmp + [PortKey(ports[i])];
    }
    assert tmp == Keys(ports);
    var sorted := SortStrings(tmp);
    assert tmp[0] in Elements(tmp);
    f := Join(sorted, ',');
  }

  function Keys(ports: seq<Port>): (ks: seq<string>)
    ensures |ks| == |ports|
  {
    KeysOf(PortKey, ports)
  }

  // ------------------------------------------------------------------ faithfulness

  predicate CommaFree(keys: set<string>) {
    forall k :: k in keys ==> ',' !in k
  }

  lemma ProtocolPlain(p: Port)
    requires ValidPort(p)
    ensures ',' !in ProtocolOf(p) && ':' !in ProtocolOf(p)
  {
    assert ProtocolOf(p) == "TCP" || ProtocolOf(p) == "UDP" || ProtocolOf(p) == "SCTP";
  }

  lemma ValidKeyCommaFree(p: Port)
    requires ValidPort(p)
    ensures ',' !in PortKey(p)
  {
    ProtocolPlain(p);
  }

  /** A port key carries its protocol before the first colon. */
  lemma KeyProtocol(p: Port, protocol: string)
    requires ValidPort(p) && ':' !in protocol
    requires protocol + ":" <= PortKey(p)
    ensures ProtocolOf(p) == protocol
  {
    ProtocolPlain(p);
    var k, a, b := PortKey(p), ProtocolOf(p), protocol;
    assert k[|a|] == ':' && k[|b|] == ':' && k[..|a|] == a && k[..|b|] == b;
  }

  lemma KeyStartsWithProtocol(p: Port)
    ensures ProtocolOf(p) + ":" <= PortKey(p)
  {
    var rest := if p.port.Some? then p.port.value.ToString() else "Any";
    assert PortKey(p) == (ProtocolOf(p) + ":") + rest;
  }

  /** For valid ports a key determines the protocol and the printed port, so for numeric
      ports only the end port (and writing TCP or leaving it out) is left open. */
  lemma KeyInjective(p: Port, q: Port)
    requires ValidPort(p) && ValidPort(q) && PortKey(p) == PortKey(q)
    requires p.port.Some? ==> p.port.value.IntVal?
    requires q.port.Some? ==> q.port.value.IntVal?
    ensures ProtocolOf(p) == ProtocolOf(q) && p.port == q.port
  {
    KeyStartsWithProtocol(q);
    ProtocolPlain(q);
    KeyProtocol(p, ProtocolOf(q));
    var a := ProtocolOf(p) + ":";
    var s := if p.port.Some? then p.port.value.ToString() else "Any";
    var t := if q.port.Some? then q.port.value.ToString() else "Any";
    assert PortKey(p) == a + s && PortKey(q) == a + t;
    assert (a + s)[|a|..] == s && (a + t)[|a|..] == t;
    assert s == t && s[0] in s && "Any"[0] == 'A';
    if p.port.Some? && q.port.Some? {
      ItoaInjective(p.port.value.n, q.port.value.n);
    }
  }

  lemma {:induction false} JoinContains(parts: seq<string>, c: char)
    requires parts != [] && c in parts[0]
    ensures c in Join(parts, ',')
  {
  }

  /** No non-empty key set prints like the unrestricted one. */
  lemma FingerprintNotAll(keys: set<string>)
    requires keys != {} && forall k :: k in keys ==> ':' in k
    ensures KeysFingerprint(keys) != "All ports"
  {
    var a := Ascending(keys);
    assert |a| == |keys| > 0;
    assert a[0] in Elements(a);
    JoinContains(a, ':');
    assert ':' !in "All ports";
  }

  lemma KeyHasColon(p: Port)
    ensures ':' in PortKey(p)
  {
    assert PortKey(p)[|ProtocolOf(p)|] == ':';
  }

  /** Fingerprints are equal exactly when the key sets are. */
  lemma FingerprintFaithful(ks: set<string>, ls: set<string>)
    requires CommaFree(ks) && CommaFree(ls)
    requires forall k :: k in ks + ls ==> ':' in k
    ensures KeysFingerprint(ks) == KeysFingerprint(ls) <==> ks == ls
  {
    if KeysFingerprint(ks) == KeysFingerprint(ls) {
      if ks == {} || ls == {} {
        if ks != {} { FingerprintNotAll(ks); }
        if ls != {} { FingerprintNotAll(ls); }
      } else {
        var a, b := Ascending(ks), Ascending(ls);
        assert forall p :: p in a ==> p in Elements(a);
        assert forall p :: p in b ==> p in Elements(b);
        SplitJoin(a, ',');
        SplitJoin(b, ',');
        assert a == b;
        assert ks == Elements(a) == Elements(b) == ls;
      }
    }
  }

  /** Without the comma condition it fails: one key holding a comma prints like two keys. */
  lemma FingerprintCollision(x: string, y: string)
    requires Less(x, y)
    ensures KeysFingerprint({x, y}) == KeysFingerprint({x + "," + y})
  {
    AscendingIs([x, y]);
    AscendingIs([x + "," + y]);
    assert Elements([x, y]) == {x, y};
    assert Elements([x + "," + y]) == {x + "," + y};
    assert [x, y][1..] == [y];
    assert Join([x, y], ',') == x + "," + y;
  }
}
