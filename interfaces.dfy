/** The cache from a server address to the name of the network interface
    that carries it (`get_interface_name`). The interface enumeration is an
    input: the IPv4 and other addresses, interface by interface, in the order
    the operating system lists them. */
module Interfaces {

  /** Seconds before the table is rebuilt (INTERFACE_CACHE_EXPIRE). */
  const INTERFACE_CACHE_EXPIRE := 60
  /** The answer for an address no interface carries ("unknown interface"). */
  const UNKNOWN_INTERFACE := "未知接口"

  /** One address of one interface, as the enumeration lists it. */
  datatype Nic = Nic(iface: string, addr: string, ipv4: bool)

  /** The table the rebuild produces: every IPv4 address mapped to its
      interface, a later listing of the same address overwriting an earlier one. */
  function NameTable(nics: seq<Nic>): map<string, string>
  {
    if nics == [] then map[]
    else
      var t := NameTable(nics[..|nics| - 1]);
      var n := nics[|nics| - 1];
      if n.ipv4 then t[n.addr := n.iface] else t
  }

  /** The cache consulted at `now`: rebuilt when it is more than 60 s old. */
  function Refreshed(names: map<string, string>, lastUpdate: int, now: int, nics: seq<Nic>): map<string, string>
  {
    if now - lastUpdate > INTERFACE_CACHE_EXPIRE then NameTable(nics) else names
  }

  function NameIn(names: map<string, string>, ip: string): string
  {
    if ip in names then names[ip] else UNKNOWN_INTERFACE
  }

  /** An address is in the rebuilt table exactly when some IPv4 listing carries it. */
  lemma {:induction false} NameTableDomain(nics: seq<Nic>, addr: string)
    ensures addr in NameTable(nics) <==> exists i :: 0 <= i < |nics| && nics[i].ipv4 && nics[i].addr == addr
  {
    if nics != [] {
      var p := nics[..|nics| - 1];
      NameTableDomain(p, addr);
      if exists i :: 0 <= i < |p| && p[i].ipv4 && p[i].addr == addr {
        var i :| 0 <= i < |p| && p[i].ipv4 && p[i].addr == addr;
        assert nics[i] == p[i];
      }
      if exists i :: 0 <= i < |nics| && nics[i].ipv4 && nics[i].addr == addr {
        var i :| 0 <= i < |nics| && nics[i].ipv4 && nics[i].addr == addr;
        if i < |p| { assert p[i] == nics[i]; }
      }
    }
  }

  /** The last IPv4 listing of an address decides its interface name. */
  lemma {:induction false} NameTableLastWins(nics: seq<Nic>, i: nat)
    requires i < |nics| && nics[i].ipv4
    requires forall j :: i < j < |nics| && nics[j].ipv4 ==> nics[j].addr != nics[i].addr
    ensures nics[i].addr in NameTable(nics) && NameTable(nics)[nics[i].addr] == nics[i].iface
  {
    if i < |nics| - 1 {
      var p := nics[..|nics| - 1];
      assert p[i] == nics[i];
      NameTableLastWins(p, i);
    }
  }

  class InterfaceCache {
    var names: map<string, string>
    var lastUpdate: int

    constructor ()
      ensures names == map[] && lastUpdate == 0
    {
      names := map[];
      lastUpdate := 0;
    }

    /** `get_interface_name(ip)` at time `now`. */
    method Lookup(ip: string, now: int, nics: seq<Nic>) returns (name: string)
      modifies this
      ensures names == Refreshed(old(names), old(lastUpdate), now, nics)
      ensures lastUpdate == if now - old(lastUpdate) > INTERFACE_CACHE_EXPIRE then now else old(lastUpdate)
      ensures name == NameIn(names, ip)
    {
      if now - lastUpdate > INTERFACE_CACHE_EXPIRE {
        names := map[];
        var i := 0;
        while i < |nics|
          invariant 0 <= i <= |nics|
          invariant names == NameTable(nics[..i])
        {
          assert nics[..i + 1][..i] == nics[..i];
          if nics[i].ipv4 {
            names := names[nics[i].addr := nics[i].iface];
          }
          i := i + 1;
        }
        assert nics[..i] == nics;
        lastUpdate := now;
      }
      name := NameIn(names, ip);
    }
  }
}
