/**
  Which client address a request is taken to come from: the X-Forwarded-For chain is read
  from the right, only if the direct peer is a trusted proxy.  The grammar of addresses is
  a parameter, a partial function from text.
*/
module ProxyValidation {
  import opened Wrappers
  import opened Text
  import opened IpNetworks

  datatype ConfigurationError = InvalidCidr(cidr: string)

  type AddressParser = string -> Option<Address>
  type Networks = Result<seq<Network>, ConfigurationError>

  /** Parses the configured CIDRs in order and fails on the first that is invalid. */
  method ParseTrustedNetworks(cidrs: seq<string>, parse: string -> Option<Network>) returns (r: Networks)
    ensures r.Ok? ==> |r.value| == |cidrs| && forall i :: 0 <= i < |cidrs| ==> parse(cidrs[i]) == Some(r.value[i])
    ensures r.Err? ==> exists i :: 0 <= i < |cidrs| && parse(cidrs[i]).None? && r.error.cidr == cidrs[i] &&
                                   forall j :: 0 <= j < i ==> parse(cidrs[j]).Some?
  {
    var networks: seq<Network> := [];
    for i := 0 to |cidrs|
      invariant |networks| == i
      invariant forall j :: 0 <= j < i ==> parse(cidrs[j]) == Some(networks[j])
    {
      var network := parse(cidrs[i]);
      if network.None? {
        return Err(InvalidCidr(cidrs[i]));
      }
      networks := networks + [network.value];
    }
    r := Ok(networks);
  }

  predicate InAny(networks: seq<Network>, a: Address) {
    exists i :: 0 <= i < |networks| && Contains(networks[i], a)
  }

  predicate IsTrustedProxy(ip: string, networks: seq<Network>, parse: AddressParser) {
    ip != "" && ip != "unknown" && parse(ip).Some? && InAny(networks, parse(ip).value)
  }

  /** A token the walk stops at: a valid address that is not a trusted proxy. */
  predicate IsClient(token: string, networks: seq<Network>, parse: AddressParser) {
    token != "" && parse(token).Some? && !IsTrustedProxy(token, networks, parse)
  }

  function StripAll(parts: seq<string>): (r: seq<string>)
    ensures |r| == |parts| && forall i :: 0 <= i < |parts| ==> r[i] == Strip(parts[i])
  {
    seq(|parts|, i requires 0 <= i < |parts| => Strip(parts[i]))
  }

  /** The comma-separated tokens of the header, white space removed. */
  function Tokens(header: string): (r: seq<string>)
    ensures |r| >= 1
  {
    StripAll(Split(header, ','))
  }

  ghost predicate HasClient(tokens: seq<string>, networks: seq<Network>, parse: AddressParser) {
    exists i :: 0 <= i < |tokens| && IsClient(tokens[i], networks, parse)
  }

  /**
    The walk from the right; with no client in the chain, the leftmost token if it is an
    address, else the direct peer.
  */
  function FromChain(tokens: seq<string>, direct: string, networks: seq<Network>, parse: AddressParser): string
    requires tokens != []
  {
    match LastClient(tokens, networks, parse)
    case Some(token) => token
    case None => if parse(tokens[0]).Some? then tokens[0] else direct
  }

  function LastClient(tokens: seq<string>, networks: seq<Network>, parse: AddressParser): Option<string> {
    if tokens == [] then None
    else if IsClient(tokens[|tokens| - 1], networks, parse) then Some(tokens[|tokens| - 1])
    else LastClient(tokens[..|tokens| - 1], networks, parse)
  }

  function DirectIp(direct: Option<string>): string {
    if direct.None? || direct.value == "" then "unknown" else direct.value
  }

  function ClientIp(header: Option<string>, direct: Option<string>, trusted: Networks,
                    parse: AddressParser): Result<string, ConfigurationError> {
    var d := DirectIp(direct);
    if header.None? || header.value == "" then Ok(d)
    else if d == "unknown" || parse(d).None? then Ok(d)
    else match trusted
      case Err(e) => Err(e)
      case Ok(networks) =>
        Ok(if IsTrustedProxy(d, networks, parse) then FromChain(Tokens(header.value), d, networks, parse) else d)
  }

  // ------------------------------------------------------------------ the code

  method IsTrusted(ip: string, trusted: Networks, parse: AddressParser) returns (r: Result<bool, ConfigurationError>)
    ensures r == if ip == "" || ip == "unknown" || parse(ip).None? then Ok(false)
                 else if trusted.Err? then Err(trusted.error)
                 else Ok(IsTrustedProxy(ip, trusted.value, parse))
  {
    if ip == "" || ip == "unknown" {
      return Ok(false);
    }
    var address := parse(ip);
    if address.None? {
      return Ok(false);
    }
    if trusted.Err? {
      return Err(trusted.error);
    }
    for i := 0 to |trusted.value|
      invariant forall j :: 0 <= j < i ==> !Contains(trusted.value[j], address.value)
    {
      if Contains(trusted.value[i], address.value) {
        return Ok(true);
      }
    }
    r := Ok(false);
  }

  method ExtractClientIp(header: Option<string>, direct: Option<string>, trusted: Networks, parse: AddressParser)
    returns (r: Result<string, ConfigurationError>)
    ensures r == ClientIp(header, direct, trusted, parse)
  {
    var directIp := if direct.None? || direct.value == "" then "unknown" else direct.value;
    if header.None? || header.value == "" {
      return Ok(directIp);
    }
    var fromProxy := IsTrusted(directIp, trusted, parse);
    if fromProxy.Err? {
      return Err(fromProxy.error);
    }
    if !fromProxy.value {
      return Ok(directIp);
    }
    var ips := Tokens(header.value);
    var i := |ips|;
    assert ips[..i] == ips;
    while i > 0
      invariant 0 <= i <= |ips|
      invariant LastClient(ips, trusted.value, parse) == LastClient(ips[..i], trusted.value, parse)
    {
      i := i - 1;
      assert ips[..i + 1][..i] == ips[..i];
      var ip := Strip(ips[i]);
      TokensAreStripped(header.value, i);
      if ip == "" {
        continue;
      }
      if parse(ip).None? {
        continue;
      }
      var proxy := IsTrusted(ip, trusted, parse);
      if proxy == Ok(false) {
        return Ok(ip);
      }
    }
    var clientIp := Strip(ips[0]);
    TokensAreStripped(header.value, 0);
    r := Ok(if parse(clientIp).Some? then clientIp else directIp);
  }

  // ------------------------------------------------------------------ what the walk finds

  ghost predicate RightmostClient(tokens: seq<string>, i: int, networks: seq<Network>, parse: AddressParser) {
    && 0 <= i < |tokens|
    && IsClient(tokens[i], networks, parse)
    && forall j :: i < j < |tokens| ==> !IsClient(tokens[j], networks, parse)
  }

  /** The walk finds the rightmost client, and finds none exactly when there is none. */
  lemma {:induction false} WalkFindsTheRightmost(tokens: seq<string>, networks: seq<Network>, parse: AddressParser)
    ensures LastClient(tokens, networks, parse).None? <==> !HasClient(tokens, networks, parse)
    ensures LastClient(tokens, networks, parse).Some? ==>
              exists i :: RightmostClient(tokens, i, networks, parse)
                          && tokens[i] == LastClient(tokens, networks, parse).value
  {
    if tokens != [] {
      var n := |tokens| - 1;
      if IsClient(tokens[n], networks, parse) {
        assert RightmostClient(tokens, n, networks, parse);
      } else {
        var init := tokens[..n];
        WalkFindsTheRightmost(init, networks, parse);
        if LastClient(init, networks, parse).Some? {
          var i :| RightmostClient(init, i, networks, parse) && init[i] == LastClient(init, networks, parse).value;
          assert tokens[i] == init[i];
          forall j | i < j < |tokens|
            ensures !IsClient(tokens[j], networks, parse)
          {
            if j < n { assert tokens[j] == init[j]; }
          }
          assert RightmostClient(tokens, i, networks, parse);
        } else {
          forall i | 0 <= i < |tokens|
            ensures !IsClient(tokens[i], networks, parse)
          {
            if i < n { assert tokens[i] == init[i]; }
          }
        }
      }
    }
  }

  lemma {:induction false} RightPartDecides(left: seq<string>, right: seq<string>, networks: seq<Network>,
                                            parse: AddressParser)
    ensures LastClient(left + right, networks, parse) ==
            if LastClient(right, networks, parse).Some? then LastClient(right, networks, parse)
            else LastClient(left, networks, parse)
    decreases |right|
  {
    if right == [] {
      assert left + right == left;
    } else {
      var n := |right| - 1;
      assert (left + right)[..|left| + n] == left + right[..n];
      assert (left + right)[|left| + n] == right[n];
      RightPartDecides(left, right[..n], networks, parse);
    }
  }

  lemma TokensAcross(p: string, x: string)
    ensures Tokens(p + "," + x) == Tokens(p) + Tokens(x)
  {
    SplitAcross(p, ',', x);
    assert p + "," + x == p + [','] + x;
    StripAllAcross(Split(p, ','), Split(x, ','));
  }

  lemma StripAllAcross(a: seq<string>, b: seq<string>)
    ensures StripAll(a + b) == StripAll(a) + StripAll(b)
  {
  }

  lemma TokensAreStripped(header: string, i: nat)
    requires i < |Tokens(header)|
    ensures Strip(Tokens(header)[i]) == Tokens(header)[i]
  {
    StripIsIdempotent(Split(header, ',')[i]);
  }

  /** An entry without a comma is one token, without the white space around it. */
  lemma EntryIsOneToken(entry: string)
    requires ',' !in entry
    ensures Tokens(entry) == [Strip(entry)]
  {
    SplitWithout(entry, ',');
  }

  /**
    What the nearest proxy wrote decides first: if the last entry, white space aside, is a
    client, it is the answer.
  */
  lemma LastEntryDecides(p: string, entry: string, direct: Option<string>, networks: seq<Network>, parse: AddressParser)
    requires ',' !in entry && IsClient(Strip(entry), networks, parse)
    requires IsTrustedProxy(DirectIp(direct), networks, parse)
    ensures ClientIp(Some(p + "," + entry), direct, Ok(networks), parse) == Ok(Strip(entry))
  {
    TokensAcross(p, entry);
    EntryIsOneToken(entry);
    RightPartDecides(Tokens(p), [Strip(entry)], networks, parse);
  }

  // ------------------------------------------------------------------ prefixes and suffixes

  lemma ChainPrefixDoesNotMatter(left: seq<string>, right: seq<string>, direct: string, networks: seq<Network>,
                                 parse: AddressParser)
    requires HasClient(right, networks, parse)
    ensures FromChain(left + right, direct, networks, parse) == FromChain(right, direct, networks, parse)
  {
    RightPartDecides(left, right, networks, parse);
    WalkFindsTheRightmost(right, networks, parse);
  }

  /**
    Whatever a client puts in front of the header does not matter: as long as the part the
    proxies wrote holds one valid untrusted address, every prefix gives the same answer.
  */
  lemma PrefixDoesNotMatter(p: string, x: string, direct: Option<string>, trusted: Networks, parse: AddressParser)
    requires trusted.Ok? ==> HasClient(Tokens(x), trusted.value, parse)
    requires x != ""
    ensures ClientIp(Some(p + "," + x), direct, trusted, parse) == ClientIp(Some(x), direct, trusted, parse)
  {
    TokensAcross(p, x);
    if trusted.Ok? {
      ChainPrefixDoesNotMatter(Tokens(p), Tokens(x), DirectIp(direct), trusted.value, parse);
    }
  }

  /** Further hops on the right that are trusted, blank or malformed do not matter either. */
  lemma TrustedHopsDoNotMatter(x: string, y: string, direct: Option<string>, trusted: Networks, parse: AddressParser)
    requires trusted.Ok? ==> HasClient(Tokens(x), trusted.value, parse) && !HasClient(Tokens(y), trusted.value, parse)
    requires x != ""
    ensures ClientIp(Some(x + "," + y), direct, trusted, parse) == ClientIp(Some(x), direct, trusted, parse)
  {
    TokensAcross(x, y);
    if trusted.Ok? {
      RightPartDecides(Tokens(x), Tokens(y), trusted.value, parse);
      WalkFindsTheRightmost(Tokens(x), trusted.value, parse);
      WalkFindsTheRightmost(Tokens(y), trusted.value, parse);
    }
  }

  /** The condition is exact: with no client among the proxies' entries, a prefixed client address is what comes out. */
  lemma WithoutAClientThePrefixDecides(c: string, x: string, direct: Option<string>, networks: seq<Network>,
                                       parse: AddressParser)
    requires IsClient(c, networks, parse) && Strip(c) == c && ',' !in c
    requires IsTrustedProxy(DirectIp(direct), networks, parse)
    ensures ClientIp(Some(c + "," + x), direct, Ok(networks), parse) == Ok(c) <==>
            !HasClient(Tokens(x), networks, parse) || LastClient(Tokens(x), networks, parse) == Some(c)
  {
    TokensAcross(c, x);
    SplitWithout(c, ',');
    RightPartDecides(Tokens(c), Tokens(x), networks, parse);
    WalkFindsTheRightmost(Tokens(x), networks, parse);
    assert Tokens(c) == [c];
  }

  /**
    A chain in which every hop is trusted, blank or malformed: the leftmost entry if it is an
    address, as for internal health checks, else the peer itself.
  */
  lemma TrustedChainGivesTheLeftmost(x: string, direct: Option<string>, networks: seq<Network>, parse: AddressParser)
    requires IsTrustedProxy(DirectIp(direct), networks, parse)
    requires x != "" && !HasClient(Tokens(x), networks, parse)
    ensures ClientIp(Some(x), direct, Ok(networks), parse)
            == Ok(if parse(Tokens(x)[0]).Some? then Tokens(x)[0] else DirectIp(direct))
  {
    WalkFindsTheRightmost(Tokens(x), networks, parse);
  }

  /** A chain with a client in it, from a trusted peer: the rightmost client. */
  lemma TrustedPeerGivesTheRightmost(x: string, direct: Option<string>, networks: seq<Network>, parse: AddressParser)
    requires IsTrustedProxy(DirectIp(direct), networks, parse)
    requires x != "" && HasClient(Tokens(x), networks, parse)
    ensures exists i :: RightmostClient(Tokens(x), i, networks, parse)
                        && ClientIp(Some(x), direct, Ok(networks), parse) == Ok(Tokens(x)[i])
  {
    WalkFindsTheRightmost(Tokens(x), networks, parse);
  }

  /** Without a header, or with an empty one, the peer is taken as it is; a missing or empty peer is "unknown". */
  lemma WithoutAHeaderThePeerIsTaken(direct: Option<string>, trusted: Networks, parse: AddressParser)
    ensures ClientIp(None, direct, trusted, parse) == ClientIp(Some(""), direct, trusted, parse)
            == Ok(if direct in {None, Some("")} then "unknown" else direct.value)
  {
  }

  /** A configuration error surfaces exactly when the peer has to be looked up. */
  lemma ConfigurationErrorsSurfaceIff(header: Option<string>, direct: Option<string>, trusted: Networks,
                                      parse: AddressParser)
    ensures ClientIp(header, direct, trusted, parse).Err? <==>
            && trusted.Err? && header !in {None, Some("")}
            && direct !in {None, Some(""), Some("unknown")} && parse(direct.value).Some?
  {
  }

  /** The networks of a list of CIDRs, each an address with a prefix length. */
  function NetworksOf(cidrs: seq<(Address, nat)>): seq<Network>
    requires forall i :: 0 <= i < |cidrs| ==> cidrs[i].1 <= cidrs[i].0.version.Width()
  {
    seq(|cidrs|, i requires 0 <= i < |cidrs| => MakeNetwork(cidrs[i].0, cidrs[i].1))
  }

  /**
    Trusted are exactly the addresses inside one of the configured blocks; blank, unknown
    and malformed texts are not.
  */
  lemma TrustedIffInABlock(ip: string, cidrs: seq<(Address, nat)>, parse: AddressParser)
    requires forall i :: 0 <= i < |cidrs| ==> cidrs[i].1 <= cidrs[i].0.version.Width() && ValidAddress(cidrs[i].0)
    requires parse(ip).Some? ==> ValidAddress(parse(ip).value)
    ensures IsTrustedProxy(ip, NetworksOf(cidrs), parse) <==>
            && ip !in {"", "unknown"} && parse(ip).Some?
            && exists i :: 0 <= i < |cidrs| && InBlock(parse(ip).value, cidrs[i].0, cidrs[i].1)
  {
    var networks := NetworksOf(cidrs);
    if parse(ip).Some? {
      var a := parse(ip).value;
      forall i | 0 <= i < |cidrs|
        ensures Contains(networks[i], a) <==> InBlock(a, cidrs[i].0, cidrs[i].1)
      {
        ContainsIffInBlock(cidrs[i].0, cidrs[i].1, a);
      }
    }
  }

  /** A client in a chain is an address outside every configured block; "unknown" would be one too, if it parsed. */
  lemma ClientIffOutsideEveryBlock(token: string, cidrs: seq<(Address, nat)>, parse: AddressParser)
    requires forall i :: 0 <= i < |cidrs| ==> cidrs[i].1 <= cidrs[i].0.version.Width() && ValidAddress(cidrs[i].0)
    requires parse(token).Some? ==> ValidAddress(parse(token).value)
    ensures IsClient(token, NetworksOf(cidrs), parse) <==>
            && token != "" && parse(token).Some?
            && (token == "unknown"
                || forall i :: 0 <= i < |cidrs| ==> !InBlock(parse(token).value, cidrs[i].0, cidrs[i].1))
  {
    TrustedIffInABlock(token, cidrs, parse);
  }

  /** From an untrusted peer the header is ignored altogether. */
  lemma UntrustedPeerIsTakenAsIs(header: Option<string>, direct: Option<string>, networks: seq<Network>,
                                 parse: AddressParser)
    requires !IsTrustedProxy(DirectIp(direct), networks, parse)
    ensures ClientIp(header, direct, Ok(networks), parse) == Ok(DirectIp(direct))
  {
  }
}
