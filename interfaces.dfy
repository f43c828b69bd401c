/**
 The interface map shown beside the graph: for every network interface, its IPv4
 address. The operating system's address table is a parameter here, a map from
 interface name to the interface's addresses in the order the system lists them.
 */
module Interfaces {
  import opened Wrappers

  /** Address families; only the IPv4 family is kept in the interface map. */
  datatype Family = AfInet | AfInet6 | AfLink

  datatype Addr = Addr(family: Family, address: string)

  /** `addrs[i]` is an IPv4 address and no IPv4 address follows it. */
  ghost predicate IsLastIPv4At(addrs: seq<Addr>, i: int)
  {
    && 0 <= i < |addrs|
    && addrs[i].family == AfInet
    && forall j :: i < j < |addrs| ==> addrs[j].family != AfInet
  }

  /**
   The address a walk over `addrs` leaves in the map: each IPv4 entry overwrites the
   one before, so the last IPv4 address wins; none when there is no IPv4 entry.
   */
  function LastIPv4(addrs: seq<Addr>): (r: Option<string>)
    ensures r.None? <==> forall i :: 0 <= i < |addrs| ==> addrs[i].family != AfInet
    ensures r.Some? ==> exists i :: IsLastIPv4At(addrs, i) && addrs[i].address == r.value
  {
    if |addrs| == 0 then None
    else
      var last := addrs[|addrs| - 1];
      if last.family == AfInet then
        assert IsLastIPv4At(addrs, |addrs| - 1);
        Some(last.address)
      else
        var r := LastIPv4(addrs[..|addrs| - 1]);
        assert r.Some? ==> exists i :: IsLastIPv4At(addrs, i) && addrs[i].address == r.value by {
          if r.Some? {
            var i :| IsLastIPv4At(addrs[..|addrs| - 1], i) && addrs[i].address == r.value;
            assert IsLastIPv4At(addrs, i);
          }
        }
        r
  }

  /** The interface map: every interface with an IPv4 address, mapped to its last one. */
  function ActiveInterfaces(interfaces: map<string, seq<Addr>>): (m: map<string, string>)
    ensures forall iface :: iface in m <==>
              iface in interfaces && exists i :: 0 <= i < |interfaces[iface]| && interfaces[iface][i].family == AfInet
    ensures forall iface :: iface in m ==>
              exists i :: IsLastIPv4At(interfaces[iface], i) && interfaces[iface][i].address == m[iface]
  {
    map iface | iface in interfaces && LastIPv4(interfaces[iface]).Some? :: LastIPv4(interfaces[iface]).value
  }

  /**
   The walk itself: for every interface and every one of its addresses in order, an IPv4
   address is stored under the interface's name, overwriting what was stored before.
   */
  method GetNetworkInterfaces(interfaces: map<string, seq<Addr>>) returns (active: map<string, string>)
    ensures active == ActiveInterfaces(interfaces)
  {
    active := map[];
    var pending := interfaces.Keys;
    while pending != {}
      invariant pending <= interfaces.Keys
      invariant forall iface :: iface in active <==>
                  iface in interfaces && iface !in pending && LastIPv4(interfaces[iface]).Some?
      invariant forall iface :: iface in active ==> active[iface] == LastIPv4(interfaces[iface]).value
      decreases pending
    {
      var iface :| iface in pending;
      var addrs := interfaces[iface];
      ghost var before := active;
      var j := 0;
      while j < |addrs|
        invariant 0 <= j <= |addrs|
        invariant forall other :: other != iface ==> (other in active <==> other in before)
        invariant forall other :: other != iface && other in active ==> active[other] == before[other]
        invariant iface in active <==> LastIPv4(addrs[..j]).Some?
        invariant iface in active ==> active[iface] == LastIPv4(addrs[..j]).value
      {
        assert addrs[..j + 1][..j] == addrs[..j];
        if addrs[j].family == AfInet {
          active := active[iface := addrs[j].address];
        }
        j := j + 1;
      }
      assert addrs[..j] == addrs;
      pending := pending - {iface};
    }
  }
}
