/** The host report and how it is built from what the operating system enumerates
    (`Report::new_inner` in src/report.rs, the first half of `Report::new` in src/main.rs). */
module HostReport {
  import opened Wrappers

  /** An IP network (address plus prefix length); its structure is not modelled. */
  type IpNetwork(==, !new)

  /** A hardware address; its six octets are not modelled. */
  type MacAddr(==, !new)

  /** One interface as it appears in a report. */
  datatype Interface = Interface(name: string, mac: Option<MacAddr>, addrs: seq<IpNetwork>)

  /** The report broadcast by the beacon. */
  datatype Report = Report(hostname: Option<string>, interfaces: seq<Interface>)

  /** One interface as the operating system enumerates it. */
  datatype OsInterface = OsInterface(name: string, mac: Option<MacAddr>, ips: seq<IpNetwork>, isLoopback: bool)

  /** The three outcomes of asking the operating system for the host name: the call
      fails, it returns a name that is not valid Unicode, or it returns a usable name. */
  datatype HostnameLookup = LookupFailed | NotUnicode | Found(name: string)

  /** The results of the two operating-system queries a report is built from. */
  datatype HostSnapshot = HostSnapshot(hostname: HostnameLookup, interfaces: seq<OsInterface>)

  /** The host name a report carries: present exactly when the lookup produced a usable name. */
  function ReportedHostname(lookup: HostnameLookup): (h: Option<string>)
    ensures h.Some? <==> lookup.Found?
    ensures h.Some? ==> h.value == lookup.name
  {
    match lookup
    case Found(name) => Some(name)
    case _ => None
  }

  // ---------------------------------------------------------------------------
  // The interface pipeline, stage by stage as the source chains it:
  // filter out loopback, map to `Interface`, filter out interfaces without addresses.
  // ---------------------------------------------------------------------------

  /** First stage: drop loopback interfaces. */
  function DropLoopback(os: seq<OsInterface>): (r: seq<OsInterface>)
    ensures |r| <= |os|
    ensures forall k :: 0 <= k < |r| ==> !r[k].isLoopback
  {
    if os == [] then []
    else (if os[0].isLoopback then [] else [os[0]]) + DropLoopback(os[1..])
  }

  /** The field-for-field copy made by the `map` stage. */
  function AsInterface(i: OsInterface): Interface
  {
    Interface(i.name, i.mac, i.ips)
  }

  /** Second stage: copy every enumerated interface into a report interface. */
  function AsInterfaces(os: seq<OsInterface>): (r: seq<Interface>)
    ensures |r| == |os|
    ensures forall k :: 0 <= k < |os| ==> r[k] == AsInterface(os[k])
  {
    if os == [] then []
    else [AsInterface(os[0])] + AsInterfaces(os[1..])
  }

  /** Third stage: drop interfaces that have no address. */
  function DropUnaddressed(ifs: seq<Interface>): (r: seq<Interface>)
    ensures |r| <= |ifs|
    ensures AllAddressed(r)
  {
    if ifs == [] then []
    else (if |ifs[0].addrs| == 0 then [] else [ifs[0]]) + DropUnaddressed(ifs[1..])
  }

  /** The whole pipeline. */
  function CollectInterfaces(os: seq<OsInterface>): (r: seq<Interface>)
    ensures |r| <= |os|
    ensures AllAddressed(r)
  {
    DropUnaddressed(AsInterfaces(DropLoopback(os)))
  }

  /** The report built from one snapshot of the host. */
  function BuildReport(host: HostSnapshot): (r: Report)
    ensures r.hostname.Some? <==> host.hostname.Found?
    ensures r.hostname.Some? ==> r.hostname.value == host.hostname.name
    ensures WellFormed(r)
  {
    Report(ReportedHostname(host.hostname), CollectInterfaces(host.interfaces))
  }

  // ---------------------------------------------------------------------------
  // An independent description of the pipeline: the report lists, in enumeration
  // order, a copy of exactly those enumerated interfaces that are kept.
  // ---------------------------------------------------------------------------

  /** The filter condition of the two `filter` stages taken together. */
  predicate Kept(i: OsInterface)
  {
    !i.isLoopback && |i.ips| > 0
  }

  /** Each interface of the list has at least one address. */
  predicate AllAddressed(ifs: seq<Interface>)
  {
    forall k :: 0 <= k < |ifs| ==> |ifs[k].addrs| > 0
  }

  /** The invariant every report the host builds satisfies: each listed interface has an address. */
  predicate WellFormed(r: Report)
  {
    AllAddressed(r.interfaces)
  }

  ghost predicate Increasing(p: seq<nat>)
  {
    forall a, b :: 0 <= a < b < |p| ==> p[a] < p[b]
  }

  /** The positions of the kept interfaces, in increasing order, and no others. */
  ghost function KeptPositions(os: seq<OsInterface>): (p: seq<nat>)
    ensures Increasing(p)
    ensures forall k :: 0 <= k < |p| ==> p[k] < |os| && Kept(os[p[k]])
    ensures forall i :: 0 <= i < |os| && Kept(os[i]) ==> i in p
  {
    if os == [] then []
    else
      var n := |os| - 1;
      var front := KeptPositions(os[..n]);
      assert forall i :: 0 <= i < n ==> os[..n][i] == os[i];
      front + (if Kept(os[n]) then [n] else [])
  }

  lemma {:induction false} DropLoopbackAppend(a: seq<OsInterface>, b: seq<OsInterface>)
    ensures DropLoopback(a + b) == DropLoopback(a) + DropLoopback(b)
    decreases |a|
  {
    if a == [] {
      assert a + b == b;
    } else {
      var head := if a[0].isLoopback then [] else [a[0]];
      assert (a + b)[0] == a[0] && (a + b)[1..] == a[1..] + b;
      DropLoopbackAppend(a[1..], b);
      calc {
        DropLoopback(a + b);
        head + DropLoopback(a[1..] + b);
        head + (DropLoopback(a[1..]) + DropLoopback(b));
        (head + DropLoopback(a[1..])) + DropLoopback(b);
      }
    }
  }

  lemma AsInterfacesAppend(a: seq<OsInterface>, b: seq<OsInterface>)
    ensures AsInterfaces(a + b) == AsInterfaces(a) + AsInterfaces(b)
  {
  }

  lemma {:induction false} DropUnaddressedAppend(a: seq<Interface>, b: seq<Interface>)
    ensures DropUnaddressed(a + b) == DropUnaddressed(a) + DropUnaddressed(b)
    decreases |a|
  {
    if a == [] {
      assert a + b == b;
    } else {
      var head := if |a[0].addrs| == 0 then [] else [a[0]];
      assert (a + b)[0] == a[0] && (a + b)[1..] == a[1..] + b;
      DropUnaddressedAppend(a[1..], b);
      calc {
        DropUnaddressed(a + b);
        head + DropUnaddressed(a[1..] + b);
        head + (DropUnaddressed(a[1..]) + DropUnaddressed(b));
        (head + DropUnaddressed(a[1..])) + DropUnaddressed(b);
      }
    }
  }

  /** The pipeline distributes over concatenation of enumerations. */
  lemma CollectInterfacesAppend(a: seq<OsInterface>, b: seq<OsInterface>)
    ensures CollectInterfaces(a + b) == CollectInterfaces(a) + CollectInterfaces(b)
  {
    DropLoopbackAppend(a, b);
    AsInterfacesAppend(DropLoopback(a), DropLoopback(b));
    DropUnaddressedAppend(AsInterfaces(DropLoopback(a)), AsInterfaces(DropLoopback(b)));
  }

  /** On a single interface the pipeline yields its copy exactly when it is kept. */
  lemma CollectInterfacesSingle(x: OsInterface)
    ensures CollectInterfaces([x]) == if Kept(x) then [AsInterface(x)] else []
  {
  }

  /** Splitting the last enumerated interface off the input. */
  lemma CollectInterfacesSnoc(os: seq<OsInterface>)
    requires os != []
    ensures CollectInterfaces(os)
         == CollectInterfaces(os[..|os| - 1]) + (if Kept(os[|os| - 1]) then [AsInterface(os[|os| - 1])] else [])
  {
    var n := |os| - 1;
    assert os == os[..n] + [os[n]];
    CollectInterfacesAppend(os[..n], [os[n]]);
    CollectInterfacesSingle(os[n]);
  }

  /** `r` lists, position by position, the copies of the interfaces of `os` at positions `p`. */
  ghost predicate Corresponds(os: seq<OsInterface>, p: seq<nat>, r: seq<Interface>)
  {
    |r| == |p| && forall k :: 0 <= k < |p| ==> p[k] < |os| && r[k] == AsInterface(os[p[k]])
  }

  lemma CorrespondsInLonger(os: seq<OsInterface>, n: nat, p: seq<nat>, r: seq<Interface>)
    requires n <= |os|
    requires Corresponds(os[..n], p, r)
    ensures Corresponds(os, p, r)
  {
  }

  lemma CorrespondsExtend(os: seq<OsInterface>, p: seq<nat>, r: seq<Interface>, n: nat)
    requires n < |os|
    requires Corresponds(os, p, r)
    ensures Corresponds(os, p + [n], r + [AsInterface(os[n])])
  {
  }

  /** The pipeline lists, position by position, the copies of the kept interfaces
      in the order the operating system enumerated them. */
  lemma {:induction false} CollectedAreKeptInOrder(os: seq<OsInterface>)
    ensures Corresponds(os, KeptPositions(os), CollectInterfaces(os))
    decreases |os|
  {
    if os != [] {
      var n := |os| - 1;
      CollectInterfacesSnoc(os);
      CollectedAreKeptInOrder(os[..n]);
      var front := KeptPositions(os[..n]);
      var r0 := CollectInterfaces(os[..n]);
      CorrespondsInLonger(os, n, front, r0);
      if Kept(os[n]) {
        assert KeptPositions(os) == front + [n];
        assert CollectInterfaces(os) == r0 + [AsInterface(os[n])];
        CorrespondsExtend(os, front, r0, n);
      } else {
        assert KeptPositions(os) == front;
        assert CollectInterfaces(os) == r0 + [];
        assert r0 + [] == r0;
      }
    }
  }

  /** `x` is the copy of an enumerated interface that is not loopback and has an address. */
  ghost predicate CopiesKept(os: seq<OsInterface>, x: Interface)
  {
    exists i :: 0 <= i < |os| && Kept(os[i]) && x == AsInterface(os[i])
  }

  /** No interface appears in a report unless it is the copy of an enumerated interface
      that is not loopback and has an address, and every such interface appears. */
  lemma ReportedExactlyTheKept(os: seq<OsInterface>)
    ensures forall k :: 0 <= k < |CollectInterfaces(os)| ==> CopiesKept(os, CollectInterfaces(os)[k])
    ensures forall i :: 0 <= i < |os| && Kept(os[i]) ==> AsInterface(os[i]) in CollectInterfaces(os)
  {
    CollectedAreKeptInOrder(os);
    var p := KeptPositions(os);
    var r := CollectInterfaces(os);
    forall k | 0 <= k < |r|
      ensures CopiesKept(os, r[k])
    {
      assert Kept(os[p[k]]) && r[k] == AsInterface(os[p[k]]);
    }
    forall i | 0 <= i < |os| && Kept(os[i])
      ensures AsInterface(os[i]) in r
    {
      var k :| 0 <= k < |p| && p[k] == i;
      assert r[k] == AsInterface(os[i]);
    }
  }

  lemma {:induction false} DropLoopbackKeepsAll(os: seq<OsInterface>)
    requires forall i :: 0 <= i < |os| ==> !os[i].isLoopback
    ensures DropLoopback(os) == os
    decreases |os|
  {
    if os != [] {
      DropLoopbackKeepsAll(os[1..]);
      assert os == [os[0]] + os[1..];
    }
  }

  lemma {:induction false} DropUnaddressedKeepsAll(ifs: seq<Interface>)
    requires AllAddressed(ifs)
    ensures DropUnaddressed(ifs) == ifs
    decreases |ifs|
  {
    if ifs != [] {
      DropUnaddressedKeepsAll(ifs[1..]);
      assert ifs == [ifs[0]] + ifs[1..];
    }
  }

  /** When nothing is filtered out the report lists every enumerated interface unchanged. */
  lemma NothingDroppedWhenAllKept(os: seq<OsInterface>)
    requires forall i :: 0 <= i < |os| ==> Kept(os[i])
    ensures CollectInterfaces(os) == AsInterfaces(os)
  {
    DropLoopbackKeepsAll(os);
    DropUnaddressedKeepsAll(AsInterfaces(os));
  }

  /** The filtering scenario: a loopback interface and an interface without addresses
      are both left out, and the remaining one is copied unchanged. */
  lemma FilteringScenario(ip: IpNetwork, mac: MacAddr)
    ensures CollectInterfaces([
              OsInterface("lo", None, [ip], true),
              OsInterface("eth0", Some(mac), [ip], false),
              OsInterface("wlan0", None, [], false)])
         == [Interface("eth0", Some(mac), [ip])]
  {
    var lo := OsInterface("lo", None, [ip], true);
    var eth := OsInterface("eth0", Some(mac), [ip], false);
    var wlan := OsInterface("wlan0", None, [], false);
    assert [lo, eth, wlan][1..] == [eth, wlan];
    assert [eth, wlan][1..] == [wlan];
    assert [wlan][1..] == [];
    assert DropLoopback([wlan]) == [wlan];
    assert DropLoopback([eth, wlan]) == [eth, wlan];
    assert DropLoopback([lo, eth, wlan]) == [eth, wlan];
    var e, w := AsInterface(eth), AsInterface(wlan);
    assert AsInterfaces([eth, wlan]) == [e, w];
    assert [e, w][1..] == [w];
    assert DropUnaddressed([e, w]) == [e];
  }
}
