/**
  The admin allowlist: entries with a slash are CIDR networks, the others exact address
  texts; invalid and blank entries are skipped.  The two grammars are parameters.
*/
module AdminAllowlist {
  import opened Wrappers
  import opened Text
  import opened IpNetworks

  datatype Grammar = Grammar(address: string -> Option<Address>, network: string -> Option<Network>)

  predicate IsExact(entry: string, g: Grammar) {
    entry != "" && '/' !in entry && g.address(entry).Some?
  }

  predicate IsNetwork(entry: string, g: Grammar) {
    '/' in entry && g.network(entry).Some?
  }

  /** What one stripped entry lets through. */
  predicate Admits(entry: string, client: string, g: Grammar) {
    || (IsExact(entry, g) && client == entry)
    || (IsNetwork(entry, g) && g.address(client).Some? && Contains(g.network(entry).value, g.address(client).value))
  }

  /** An empty list lets everybody through. */
  ghost predicate Allowed(entries: seq<string>, client: string, g: Grammar) {
    entries == [] || exists i :: 0 <= i < |entries| && Admits(Strip(entries[i]), client, g)
  }

  // ------------------------------------------------------------------ the code

  method ParseAllowedIps(entries: seq<string>, g: Grammar) returns (exact: set<string>, networks: seq<Network>)
    ensures forall t :: t in exact <==> exists i :: 0 <= i < |entries| && Strip(entries[i]) == t && IsExact(t, g)
    ensures forall n :: n in networks <==>
              exists i :: 0 <= i < |entries| && IsNetwork(Strip(entries[i]), g)
                          && g.network(Strip(entries[i])) == Some(n)
  {
    exact, networks := {}, [];
    for i := 0 to |entries|
      invariant forall t :: t in exact <==> exists j :: 0 <= j < i && Strip(entries[j]) == t && IsExact(t, g)
      invariant forall n :: n in networks <==>
                  exists j :: 0 <= j < i && IsNetwork(Strip(entries[j]), g) && g.network(Strip(entries[j])) == Some(n)
    {
      var entry := Strip(entries[i]);
      if entry == "" {
        continue;
      }
      if '/' in entry {
        var network := g.network(entry);
        if network.Some? {
          networks := networks + [network.value];
        }
      } else {
        var address := g.address(entry);
        if address.Some? {
          exact := exact + {entry};
        }
      }
    }
  }

  method CheckIpAllowed(entries: seq<string>, client: string, g: Grammar) returns (allowed: bool)
    ensures allowed <==> Allowed(entries, client, g)
  {
    if entries == [] {
      return true;
    }
    var exact, networks := ParseAllowedIps(entries, g);
    if client in exact {
      return true;
    }
    var address := g.address(client);
    if address.None? {
      return false;
    }
    for i := 0 to |networks|
      invariant forall j :: 0 <= j < i ==> !Contains(networks[j], address.value)
    {
      if Contains(networks[i], address.value) {
        assert networks[i] in networks;
        return true;
      }
    }
    allowed := false;
    forall i | 0 <= i < |entries|
      ensures !Admits(Strip(entries[i]), client, g)
    {
      if IsNetwork(Strip(entries[i]), g) {
        assert g.network(Strip(entries[i])).value in networks;
      }
    }
  }

  // ------------------------------------------------------------------ what the decision depends on

  /** The entries that count, as a set. */
  function ValidEntries(entries: seq<string>, g: Grammar): set<string> {
    set i | 0 <= i < |entries| && (IsExact(Strip(entries[i]), g) || IsNetwork(Strip(entries[i]), g))
          :: Strip(entries[i])
  }

  lemma AllowedByValidEntries(entries: seq<string>, client: string, g: Grammar)
    requires entries != []
    ensures Allowed(entries, client, g) <==> exists e :: e in ValidEntries(entries, g) && Admits(e, client, g)
  {
    if e :| e in ValidEntries(entries, g) && Admits(e, client, g) {
      var i :| 0 <= i < |entries| && Strip(entries[i]) == e;
    }
    if i :| 0 <= i < |entries| && Admits(Strip(entries[i]), client, g) {
      assert Strip(entries[i]) in ValidEntries(entries, g);
    }
  }

  /** On lists that are not empty, order, repetition, white space and invalid entries are irrelevant. */
  lemma OnlyValidEntriesMatter(xs: seq<string>, ys: seq<string>, client: string, g: Grammar)
    requires xs != [] && ys != [] && ValidEntries(xs, g) == ValidEntries(ys, g)
    ensures Allowed(xs, client, g) <==> Allowed(ys, client, g)
  {
    AllowedByValidEntries(xs, client, g);
    AllowedByValidEntries(ys, client, g);
  }

  /**
    Adding entries lets more clients through, if and only if there was an entry before:
    the first entry of an empty list shuts out everybody it does not admit, even when it is invalid.
  */
  lemma AddingEntriesIsMonotoneIff(xs: seq<string>, ys: seq<string>, client: string, g: Grammar)
    requires ys != []
    ensures (Allowed(xs, client, g) ==> Allowed(xs + ys, client, g)) <==> xs != [] || Allowed(ys, client, g)
  {
    var zs := xs + ys;
    if xs != [] && Allowed(xs, client, g) {
      var i :| 0 <= i < |xs| && Admits(Strip(xs[i]), client, g);
      assert zs[i] == xs[i];
    }
    if xs == [] {
      assert zs == ys;
    }
  }

  /** A CIDR entry lets through exactly the addresses of its block, whatever host bits it was written with. */
  lemma NetworkEntryAdmitsItsBlock(entry: string, client: string, given: Address, prefix: nat, g: Grammar)
    requires ValidAddress(given) && prefix <= given.version.Width()
    requires '/' in Strip(entry) && g.network(Strip(entry)) == Some(MakeNetwork(given, prefix))
    requires g.address(client).Some? ==> ValidAddress(g.address(client).value)
    ensures Allowed([entry], client, g) <==>
            g.address(client).Some? && InBlock(g.address(client).value, given, prefix)
  {
    assert [entry][0] == entry;
    if g.address(client).Some? {
      ContainsIffInBlock(given, prefix, g.address(client).value);
    }
  }

  /** An exact entry lets through exactly the client written like it, white space around the entry aside. */
  lemma ExactEntryAdmitsItsText(entry: string, client: string, g: Grammar)
    requires '/' !in Strip(entry) && Strip(entry) != "" && g.address(Strip(entry)).Some?
    ensures Allowed([entry], client, g) <==> client == Strip(entry)
  {
    assert [entry][0] == entry;
  }

  /** A list of nothing but blank and malformed entries lets nobody through, an empty one everybody. */
  lemma InvalidEntriesAdmitNobody(entries: seq<string>, client: string, g: Grammar)
    requires forall i :: 0 <= i < |entries| ==>
               Strip(entries[i]) == "" || (if '/' in Strip(entries[i]) then g.network(Strip(entries[i])).None?
                                           else g.address(Strip(entries[i])).None?)
    ensures Allowed(entries, client, g) <==> entries == []
  {
  }

  /** A list lets through whom one of its entries alone would. */
  lemma ListsAreUnions(entries: seq<string>, client: string, g: Grammar)
    requires entries != []
    ensures Allowed(entries, client, g) <==> exists i :: 0 <= i < |entries| && Allowed([entries[i]], client, g)
  {
    forall i | 0 <= i < |entries|
      ensures Allowed([entries[i]], client, g) <==> Admits(Strip(entries[i]), client, g)
    {
      assert [entries[i]][0] == entries[i];
    }
  }

  /**
    An exact entry compares texts, a CIDR entry compares addresses: a client address
    written differently from the entry is let through by the full-length CIDR only.
  */
  lemma ExactEntriesCompareTexts(entry: string, cidr: string, client: string, g: Grammar)
    requires IsExact(entry, g) && client != entry
    requires g.address(client) == g.address(entry) && ValidAddress(g.address(entry).value)
    ensures !Admits(entry, client, g)
    ensures
      var a := g.address(entry).value;
      '/' in cidr && g.network(cidr) == Some(MakeNetwork(a, a.version.Width())) ==> Admits(cidr, client, g)
  {
    var a := g.address(entry).value;
    HostPrefixIsTheAddress(a, a);
  }
}
