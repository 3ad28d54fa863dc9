/**
 `get_client_ip`: the client address taken from the first proxy header, in a
 fixed order of preference, that carries a non-empty value; the first
 comma-separated item of that value when it lists several; the remote address
 of the connection when no such header is present. The request's headers are
 a map from header name to value, looked up by exact name.
 */
module ClientAddress {
  import opened PyStr

  type Headers = map<string, string>

  /** The headers consulted, most preferred first. */
  const ProxyHeaders: seq<string> :=
    ["X-Forwarded-For", "X-Real-IP", "X-Forwarded", "X-Cluster-Client-IP", "CF-Connecting-IP"]

  /** `headers.get(name)`. */
  function Get(headers: Headers, name: string): Option<string> {
    if name in headers then Some(headers[name]) else None
  }

  /** The header is present with a value Python treats as true, i.e. non-empty. */
  predicate Qualifies(headers: Headers, name: string) {
    name in headers && headers[name] != ""
  }

  /** `names[k]` is the first of `names` that qualifies. */
  predicate FirstQualifying(headers: Headers, names: seq<string>, k: int) {
    && 0 <= k < |names|
    && Qualifies(headers, names[k])
    && forall j | 0 <= j < k :: !Qualifies(headers, names[j])
  }

  /** What is kept of a header value: the first comma-separated item,
      stripped of surrounding whitespace, or the whole value, untouched,
      when it holds no comma. */
  function FirstItem(value: string): (r: string)
    ensures ',' !in r
  {
    if ',' in value then
      var before := Split(value, ',')[0];
      StripIsTrimmedSlice(before);
      Strip(before)
    else value
  }

  /** The selection rule over any ordered list of header names. */
  function SelectFrom(names: seq<string>, headers: Headers, remoteAddr: Option<string>): Option<string>
  {
    if names == [] then remoteAddr
    else if Qualifies(headers, names[0]) then Some(FirstItem(headers[names[0]]))
    else SelectFrom(names[1..], headers, remoteAddr)
  }

  /** The selection rule of the service. */
  function ClientIp(headers: Headers, remoteAddr: Option<string>): Option<string> {
    SelectFrom(ProxyHeaders, headers, remoteAddr)
  }

  /** The scan of the service, header by header, returning at the first match. */
  method GetClientIp(headers: Headers, remoteAddr: Option<string>) returns (ip: Option<string>)
    ensures ip == ClientIp(headers, remoteAddr)
    ensures forall k | FirstQualifying(headers, ProxyHeaders, k) ::
              ip == Some(FirstItem(headers[ProxyHeaders[k]]))
    ensures (forall k | 0 <= k < |ProxyHeaders| :: !Qualifies(headers, ProxyHeaders[k])) ==>
              ip == remoteAddr
  {
    var i := 0;
    while i < |ProxyHeaders|
      invariant 0 <= i <= |ProxyHeaders|
      invariant forall j | 0 <= j < i :: !Qualifies(headers, ProxyHeaders[j])
      invariant SelectFrom(ProxyHeaders[i..], headers, remoteAddr) == ClientIp(headers, remoteAddr)
    {
      var header := ProxyHeaders[i];
      var value := Get(headers, header);
      if value.Some? && value.value != "" {
        var found := value.value;
        if ',' in found {
          found := Strip(Split(found, ',')[0]);
        }
        assert FirstQualifying(headers, ProxyHeaders, i);
        return Some(found);
      }
      assert ProxyHeaders[i..][1..] == ProxyHeaders[i + 1..];
      i := i + 1;
    }
    return remoteAddr;
  }

  // ---------------------------------------------------------------------------
  // Properties of the selection rule
  // ---------------------------------------------------------------------------

  /** The first qualifying header decides the result. */
  lemma {:induction false} SelectFirstQualifying(names: seq<string>, headers: Headers, remoteAddr: Option<string>, k: int)
    requires FirstQualifying(headers, names, k)
    ensures SelectFrom(names, headers, remoteAddr) == Some(FirstItem(headers[names[k]]))
    decreases k
  {
    if k > 0 {
      assert !Qualifies(headers, names[0]);
      assert FirstQualifying(headers, names[1..], k - 1) by {
        forall j | 0 <= j < k - 1 ensures !Qualifies(headers, names[1..][j]) {
          assert names[1..][j] == names[j + 1];
        }
      }
      SelectFirstQualifying(names[1..], headers, remoteAddr, k - 1);
    }
  }

  /** When no listed header qualifies, the remote address is the answer. */
  lemma {:induction false} SelectFallback(names: seq<string>, headers: Headers, remoteAddr: Option<string>)
    requires forall k | 0 <= k < |names| :: !Qualifies(headers, names[k])
    ensures SelectFrom(names, headers, remoteAddr) == remoteAddr
    decreases |names|
  {
    if names != [] {
      assert !Qualifies(headers, names[0]);
      assert forall k | 0 <= k < |names| - 1 :: names[1..][k] == names[k + 1];
      SelectFallback(names[1..], headers, remoteAddr);
    }
  }

  /** Once a header qualifies, the later ones, and the remote address, are
      never consulted: requests that agree up to that header get the same
      answer. */
  lemma {:induction false} LaterHeadersIgnored(names: seq<string>, h1: Headers, h2: Headers,
                                               r1: Option<string>, r2: Option<string>, k: int)
    requires FirstQualifying(h1, names, k)
    requires forall j | 0 <= j <= k :: Get(h1, names[j]) == Get(h2, names[j])
    ensures SelectFrom(names, h1, r1) == SelectFrom(names, h2, r2)
  {
    assert FirstQualifying(h2, names, k) by {
      forall j | 0 <= j <= k ensures Qualifies(h1, names[j]) == Qualifies(h2, names[j]) {
        assert Get(h1, names[j]) == Get(h2, names[j]);
      }
    }
    assert Get(h1, names[k]) == Get(h2, names[k]);
    SelectFirstQualifying(names, h1, r1, k);
    SelectFirstQualifying(names, h2, r2, k);
  }

  /** A header whose value is the empty string counts as absent. */
  lemma {:induction false} EmptyValueIsAbsent(names: seq<string>, headers: Headers, remoteAddr: Option<string>, name: string)
    ensures SelectFrom(names, headers[name := ""], remoteAddr) == SelectFrom(names, headers - {name}, remoteAddr)
    decreases |names|
  {
    if names != [] {
      var h1, h2 := headers[name := ""], headers - {name};
      assert Qualifies(h1, names[0]) == Qualifies(h2, names[0]);
      if Qualifies(h1, names[0]) {
        assert h1[names[0]] == h2[names[0]];
      } else {
        EmptyValueIsAbsent(names[1..], headers, remoteAddr, name);
      }
    }
  }

  /** Headers outside the consulted list play no part. */
  lemma {:induction false} UnlistedHeaderIgnored(names: seq<string>, headers: Headers, remoteAddr: Option<string>,
                                                 name: string, value: string)
    requires name !in names
    ensures SelectFrom(names, headers[name := value], remoteAddr) == SelectFrom(names, headers, remoteAddr)
    decreases |names|
  {
    if names != [] {
      assert names[0] != name;
      assert name !in names[1..];
      UnlistedHeaderIgnored(names[1..], headers, remoteAddr, name, value);
    }
  }

  /** A qualifying header at `k` means some header at or before `k` is the
      first qualifying one. */
  lemma {:induction false} FirstQualifyingExists(names: seq<string>, headers: Headers, k: int)
    requires 0 <= k < |names| && Qualifies(headers, names[k])
    ensures exists j | 0 <= j <= k :: FirstQualifying(headers, names, j)
    decreases k
  {
    if forall j | 0 <= j < k :: !Qualifies(headers, names[j]) {
      assert FirstQualifying(headers, names, k);
    } else {
      var j :| 0 <= j < k && Qualifies(headers, names[j]);
      FirstQualifyingExists(names, headers, j);
    }
  }

  /** Any qualifying header, wherever it stands, means a header provides the
      answer: the kept part of the first qualifying header's value, never the
      remote address. */
  lemma QualifyingHeaderAnswers(names: seq<string>, headers: Headers, remoteAddr: Option<string>, k: int)
    requires 0 <= k < |names| && Qualifies(headers, names[k])
    ensures exists j | FirstQualifying(headers, names, j) ::
              SelectFrom(names, headers, remoteAddr) == Some(FirstItem(headers[names[j]]))
    ensures SelectFrom(names, headers, remoteAddr).Some?
  {
    FirstQualifyingExists(names, headers, k);
    var j :| 0 <= j <= k && FirstQualifying(headers, names, j);
    SelectFirstQualifying(names, headers, remoteAddr, j);
  }

  /** The answer is the remote address or derives from a listed header. */
  lemma {:induction false} SelectSource(names: seq<string>, headers: Headers, remoteAddr: Option<string>)
    ensures || SelectFrom(names, headers, remoteAddr) == remoteAddr
            || exists k | FirstQualifying(headers, names, k) ::
                 SelectFrom(names, headers, remoteAddr) == Some(FirstItem(headers[names[k]]))
    decreases |names|
  {
    if names != [] && !Qualifies(headers, names[0]) {
      SelectSource(names[1..], headers, remoteAddr);
      if SelectFrom(names, headers, remoteAddr) != remoteAddr {
        var k :| FirstQualifying(headers, names[1..], k)
               && SelectFrom(names[1..], headers, remoteAddr) == Some(FirstItem(headers[names[1..][k]]));
        assert FirstQualifying(headers, names, k + 1) by {
          forall j | 0 <= j < k + 1 ensures !Qualifies(headers, names[j]) {
            if j > 0 { assert names[j] == names[1..][j - 1]; }
          }
        }
      }
    } else if names != [] {
      assert FirstQualifying(headers, names, 0);
    }
  }

  // ---------------------------------------------------------------------------
  // Properties of the value kept
  // ---------------------------------------------------------------------------

  /** A value with a comma keeps only the text before its first comma,
      stripped of surrounding whitespace. */
  lemma FirstItemBeforeComma(value: string, i: nat)
    requires i < |value| && value[i] == ',' && ',' !in value[..i]
    ensures FirstItem(value) == Strip(value[..i])
  {
    SplitFirstSegment(value, ',', i);
  }

  /** A value without a comma is kept as it is, whitespace included. */
  lemma FirstItemWithoutComma(value: string)
    requires ',' !in value
    ensures FirstItem(value) == value
  {
  }

  /** A kept item from a list has no whitespace at either end. */
  lemma FirstItemTrimmed(value: string)
    requires ',' in value
    ensures var r := FirstItem(value);
            r != [] ==> !IsSpace(r[0]) && !IsSpace(r[|r| - 1])
  {
  }
}
