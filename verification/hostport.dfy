/** net.JoinHostPort and net.SplitHostPort, which undoes it. */
module HostPort {
  import opened GoStrings

  datatype Option<T> = None | Some(value: T)

  /** net.JoinHostPort: "host:port", with the host in square brackets when it
      holds a colon (an IPv6 literal). */
  function JoinHostPort(host: string, port: string): string
  {
    if ':' in host then "[" + host + "]:" + port
    else host + ":" + port
  }

  /** No square bracket anywhere in `s`. */
  predicate Unbracketed(s: string)
  {
    '[' !in s && ']' !in s
  }

  /** net.SplitHostPort: splits an address at its last colon and checks the
      two halves; every error it reports ("missing port", "too many colons",
      "unexpected '['", "missing ']'") is None. */
  function SplitHostPort(address: string): (r: Option<(string, string)>)
    ensures r.Some? ==> ':' in address
  {
    if ':' !in address then None
    else
      var i := LastIndexOf(address, ':');
      Halves(address[..i], address[i + 1..])
  }

  /** The checks on the text before and after the last colon: a host that
      starts with '[' must be one bracketed run of text without further
      brackets, which are stripped; any other host may hold neither a colon
      nor a bracket; the port may hold no bracket. */
  function Halves(host: string, port: string): Option<(string, string)>
  {
    if !Unbracketed(port) then None
    else if |host| > 0 && host[0] == '[' then
      if |host| >= 2 && host[|host| - 1] == ']' && Unbracketed(host[1..|host| - 1])
      then Some((host[1..|host| - 1], port))
      else None
    else if ':' in host || !Unbracketed(host) then None
    else Some((host, port))
  }

  /** Every address JoinHostPort builds from bracket-free parts and a
      colon-free port splits back into them; a host holding a colon comes
      back only because JoinHostPort brackets it, since the same host and
      port joined without brackets are refused; and a host without a colon
      is never bracketed. */
  lemma HostPortRoundTrip(host: string, port: string)
    requires ':' !in port && Unbracketed(host) && Unbracketed(port)
    ensures SplitHostPort(JoinHostPort(host, port)) == Some((host, port))
    ensures ':' in host ==> SplitHostPort(host + ":" + port) == None
    ensures JoinHostPort(host, port) == host + ":" + port <==> ':' !in host
  {
    if ':' in host {
      BracketedRoundTrip(host, port);
      SplitAfter(host, port);
      assert host[0] != '[';
    } else {
      PlainRoundTrip(host, port);
    }
  }

  lemma BracketedRoundTrip(host: string, port: string)
    requires ':' in host && ':' !in port && Unbracketed(host) && Unbracketed(port)
    ensures SplitHostPort(JoinHostPort(host, port)) == Some((host, port))
  {
    var prefix := "[" + host + "]";
    assert JoinHostPort(host, port) == prefix + ":" + port;
    assert prefix[0] == '[' && prefix[|prefix| - 1] == ']';
    assert prefix[1..|prefix| - 1] == host;
    SplitAfter(prefix, port);
  }

  lemma PlainRoundTrip(host: string, port: string)
    requires ':' !in host && ':' !in port && Unbracketed(host) && Unbracketed(port)
    ensures SplitHostPort(JoinHostPort(host, port)) == Some((host, port))
  {
    assert |host| > 0 ==> host[0] != '[';
    SplitAfter(host, port);
  }

  /** Splitting `prefix` + ":" + `port` checks `prefix` as the host and
      `port` as the port. */
  lemma SplitAfter(prefix: string, port: string)
    requires ':' !in port
    ensures SplitHostPort(prefix + ":" + port) == Halves(prefix, port)
  {
    var a := prefix + ":" + port;
    assert a[|prefix|] == ':';
    assert forall j :: |prefix| < j < |a| ==> a[j] == port[j - |prefix| - 1];
    assert LastIndexOf(a, ':') == |prefix|;
    assert a[..|prefix|] == prefix;
    assert a[|prefix| + 1..] == port;
  }
}
