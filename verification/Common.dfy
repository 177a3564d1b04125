/** Result types and the string helpers of Go's `strings` and `net` packages that the controllers rely on. */
module Common {

  datatype Option<+T> = None | Some(value: T) {
    function GetOr(default: T): T {
      match this
      case Some(v) => v
      case None => default
    }
  }

  /** A Go `(value, error)` pair; the error's text is not modelled. */
  datatype Result<+T> = Ok(value: T) | Err
}

/** `strings.Index`, `strings.Join`, `strings.Split` and `net.SplitHostPort`. */
module Text {
  import opened Common

  /** Index of the first `c` in `s`, or -1. */
  function Index(s: string, c: char): (i: int)
    ensures -1 <= i < |s|
    ensures i == -1 <==> c !in s
    ensures i >= 0 ==> s[i] == c && c !in s[..i]
    ensures forall k :: 0 <= k < i ==> s[k] != c
  {
    if s == "" then -1
    else if s[0] == c then 0
    else
      var rest := Index(s[1..], c);
      assert s == [s[0]] + s[1..];
      if rest == -1 then -1
      else
        assert s[..rest + 1] == [s[0]] + s[1..][..rest];
        rest + 1
  }

  /** Index of the last `c` among the first `n` characters of `s`, or -1. */
  function LastBefore(s: string, c: char, n: nat): (i: int)
    requires n <= |s|
    ensures -1 <= i < n
    ensures i >= 0 ==> s[i] == c
    ensures forall k :: i < k < n ==> s[k] != c
  {
    if n == 0 then -1 else if s[n - 1] == c then n - 1 else LastBefore(s, c, n - 1)
  }

  /** Index of the last `c` in `s`, or -1. */
  function LastIndex(s: string, c: char): (i: int)
    ensures -1 <= i < |s|
    ensures i == -1 <==> c !in s
    ensures i >= 0 ==> s[i] == c && c !in s[i + 1..]
    ensures forall k :: i < k < |s| ==> s[k] != c
  {
    LastBefore(s, c, |s|)
  }

  /** The first occurrence of `c` is the only split of `s` around `c` whose left part is free of `c`. */
  lemma IndexUnique(l: string, c: char, r: string)
    requires c !in l
    ensures Index(l + [c] + r, c) == |l|
  {
    var s := l + [c] + r;
    assert s[|l|] == c;
    assert forall k :: 0 <= k < |l| ==> s[k] == l[k];
  }

  datatype HostPort = HostPort(host: string, port: string)

  /** `net.SplitHostPort`: the port follows the last colon; a host in brackets may hold colons. */
  function SplitHostPort(hostport: string): (r: Result<HostPort>)
    ensures r.Ok? ==> hostport != "" && ':' in hostport
  {
    var i := LastIndex(hostport, ':');
    if i < 0 then Err
    else if hostport[0] == '[' then
      var end := Index(hostport, ']');
      if end < 0 || end + 1 != i then Err
      else if '[' in hostport[1..] || ']' in hostport[end + 1..] then Err
      else Ok(HostPort(hostport[1..end], hostport[i + 1..]))
    else
      if ':' in hostport[..i] then Err
      else if '[' in hostport || ']' in hostport then Err
      else Ok(HostPort(hostport[..i], hostport[i + 1..]))
  }

  predicate Splits(endpoint: string) {
    SplitHostPort(endpoint).Ok?
  }

  /** The host of an endpoint; empty when there is none to dial. */
  function Host(endpoint: string): string {
    match SplitHostPort(endpoint)
    case Ok(hp) => hp.host
    case Err => ""
  }

  predicate Bracketed(endpoint: string) {
    endpoint != "" && endpoint[0] == '['
  }

  /** Gluing host and port back with a colon gives the endpoint exactly when the host had no brackets. */
  lemma RejoinExact(endpoint: string)
    requires Splits(endpoint)
    ensures var hp := SplitHostPort(endpoint).value;
            hp.host + ":" + hp.port == endpoint <==> !Bracketed(endpoint)
  {
    var hp := SplitHostPort(endpoint).value;
    var i := LastIndex(endpoint, ':');
    if Bracketed(endpoint) {
      assert |hp.host + ":" + hp.port| == |endpoint| - 2;
    } else {
      assert endpoint == endpoint[..i] + [endpoint[i]] + endpoint[i + 1..];
      assert ":" == [endpoint[i]];
    }
  }

  predicate Plain(s: string) {
    ':' !in s && '[' !in s && ']' !in s
  }

  /** A host and a port free of colons and brackets, joined by a colon, split into just these. */
  lemma PlainSplits(host: string, port: string)
    requires Plain(host) && Plain(port)
    ensures SplitHostPort(host + ":" + port) == Ok(HostPort(host, port))
  {
    var s := host + ":" + port;
    assert s[|host|] == ':';
    assert forall k :: |host| < k < |s| ==> s[k] == port[k - |host| - 1];
    assert LastIndex(s, ':') == |host|;
    assert s[..|host|] == host && s[|host| + 1..] == port;
  }

  lemma BracketedPlaces(s: string, host: string, port: string)
    requires s == ("[" + host) + [']'] + (":" + port)
    requires '[' !in host && ']' !in host && Plain(port)
    ensures Index(s, ']') == |host| + 1 && LastIndex(s, ':') == |host| + 2
  {
    IndexUnique("[" + host, ']', ":" + port);
    var colon := |host| + 2;
    assert s[colon] == ':' && forall k :: colon < k < |s| ==> s[k] == port[k - colon - 1];
  }

  lemma BracketedParts(s: string, host: string, port: string)
    requires s == ("[" + host) + [']'] + (":" + port)
    ensures s[1..] == host + ("]:" + port) && s[1..|host| + 1] == host
    ensures s[|host| + 2..] == ":" + port && s[|host| + 3..] == port
  {
  }

  /** A host in brackets may hold colons; the brackets are not part of it. */
  lemma BracketedSplits(host: string, port: string)
    requires '[' !in host && ']' !in host && Plain(port)
    ensures SplitHostPort("[" + host + "]:" + port) == Ok(HostPort(host, port))
    ensures Bracketed("[" + host + "]:" + port)
  {
    var s := "[" + host + "]:" + port;
    assert s == ("[" + host) + [']'] + (":" + port);
    BracketedPlaces(s, host, port);
    BracketedParts(s, host, port);
  }

  lemma UnbracketedShape(e: string)
    requires Splits(e) && !Bracketed(e)
    ensures var hp := SplitHostPort(e).value; e == hp.host + ":" + hp.port && Plain(hp.host) && Plain(hp.port)
  {
    var i := LastIndex(e, ':');
    assert e == e[..i] + [e[i]] + e[i + 1..];
    assert ":" == [e[i]];
  }

  lemma BracketedShape(e: string)
    requires Splits(e) && Bracketed(e)
    ensures var hp := SplitHostPort(e).value;
            e == "[" + hp.host + "]:" + hp.port && '[' !in hp.host && ']' !in hp.host && Plain(hp.port)
  {
    var i, end := LastIndex(e, ':'), Index(e, ']');
    assert e == [e[0]] + e[1..end] + [e[end], e[i]] + e[i + 1..];
    assert "[" == [e[0]] && "]:" == [e[end], e[i]];
    assert forall k :: end < k < |e| ==> e[k] == e[end + 1..][k - end - 1];
    assert forall k :: 1 <= k < |e| ==> e[k] == e[1..][k - 1];
  }

  /** An endpoint splits exactly when it is a host and a port free of colons and brackets around a colon, or a host
      free of brackets in brackets, a colon, and such a port. A second colon without brackets is refused. */
  lemma SplitHostPortExact(e: string, host: string, port: string)
    ensures SplitHostPort(e) == Ok(HostPort(host, port)) <==>
              || (e == host + ":" + port && Plain(host) && Plain(port))
              || (e == "[" + host + "]:" + port && '[' !in host && ']' !in host && Plain(port))
  {
    if Splits(e) {
      if Bracketed(e) {
        BracketedShape(e);
      } else {
        UnbracketedShape(e);
      }
    }
    if e == host + ":" + port && Plain(host) && Plain(port) {
      PlainSplits(host, port);
    }
    if e == "[" + host + "]:" + port && '[' !in host && ']' !in host && Plain(port) {
      BracketedSplits(host, port);
    }
  }

  /** `strings.Join` with a one-character separator. */
  function Join(parts: seq<string>, sep: char): string {
    if |parts| == 0 then ""
    else if |parts| == 1 then parts[0]
    else parts[0] + [sep] + Join(parts[1..], sep)
  }

  /** `strings.Split` with a one-character separator. */
  function Split(s: string, sep: char): (parts: seq<string>)
    ensures |parts| >= 1
    ensures forall p <- parts :: sep !in p
    decreases |s|
  {
    var i := Index(s, sep);
    if i < 0 then [s] else [s[..i]] + Split(s[i + 1..], sep)
  }

  predicate Free(parts: seq<string>, sep: char) {
    forall p <- parts :: sep !in p
  }

  /** Splitting and joining keep all characters but the separator. */
  lemma {:induction false} SplitChars(s: string, sep: char, c: char)
    requires c != sep
    ensures Free(Split(s, sep), c) <==> c !in s
    decreases |s|
  {
    var i := Index(s, sep);
    if i >= 0 {
      SplitChars(s[i + 1..], sep, c);
      assert s == s[..i] + [sep] + s[i + 1..];
      FreeCons(s[..i], Split(s[i + 1..], sep), c);
    } else {
      FreeCons(s, [], c);
      assert [s] + [] == [s];
    }
  }

  lemma FreeCons(head: string, rest: seq<string>, c: char)
    ensures Free([head] + rest, c) <==> c !in head && Free(rest, c)
  {
    assert ([head] + rest)[0] == head;
    assert forall p <- rest :: p in [head] + rest;
  }

  lemma {:induction false} JoinChars(parts: seq<string>, sep: char, c: char)
    requires c != sep
    ensures c !in Join(parts, sep) <==> Free(parts, c)
  {
    if parts != [] {
      assert parts == [parts[0]] + parts[1..];
      FreeCons(parts[0], parts[1..], c);
      if |parts| > 1 {
        JoinChars(parts[1..], sep, c);
      }
    }
  }

  lemma {:induction false} SplitJoin(parts: seq<string>, sep: char)
    requires parts != []
    ensures Split(Join(parts, sep), sep) == parts <==> Free(parts, sep)
  {
    if Free(parts, sep) {
      SplitJoinFree(parts, sep);
    }
  }

  lemma {:induction false} SplitJoinFree(parts: seq<string>, sep: char)
    requires parts != [] && Free(parts, sep)
    ensures Split(Join(parts, sep), sep) == parts
  {
    var head, rest := parts[0], parts[1..];
    assert head in parts;
    if rest != [] {
      SplitJoinFree(rest, sep) by {
        assert forall p <- rest :: p in parts;
      }
      SplitFirst(head, sep, Join(rest, sep));
      assert parts == [head] + rest;
    }
  }

  lemma SplitFirst(head: string, sep: char, rest: string)
    requires sep !in head
    ensures Split(head + [sep] + rest, sep) == [head] + Split(rest, sep)
  {
    var s := head + [sep] + rest;
    IndexUnique(head, sep, rest);
    assert s[..|head|] == head && s[|head| + 1..] == rest;
  }

  /** A comma-separated list as `wg` reads it: the empty text is the empty list. */
  function DecodeList(s: string): seq<string> {
    if s == "" then [] else Split(s, ',')
  }

  predicate ListPrintable(parts: seq<string>) {
    Free(parts, ',') && parts != [""]
  }

  /** A printed list reads back exactly when no entry holds a comma and the list is not a lone empty entry. */
  lemma DecodeListExact(parts: seq<string>)
    ensures DecodeList(Join(parts, ',')) == parts <==> ListPrintable(parts)
  {
    if parts != [] {
      SplitJoin(parts, ',');
      if Join(parts, ',') == "" {
        assert parts == [""] by {
          assert |parts| == 1;
          assert parts == [parts[0]];
        }
      }
    }
  }
}
