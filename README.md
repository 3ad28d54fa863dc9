# IP reverser: a verified model of the request logic

The service answers every request to `/` or to any other path except
`/health` (for the methods GET, POST, PUT, DELETE and PATCH) with the client's
IP address and the same address with its dot-separated segments in reverse
order. This project
models the two pieces of logic behind that answer in `app.py`, plus the record
it sends back:

- **`reverse_ip`** (`reverse_ip.dfy`, module `IpReversal`). It splits the
  address on `.`. With exactly four segments it joins them back in reverse
  order. Otherwise it answers `"Invalid IP format: " + address`. The argument
  is a `str` or `None`: Flask's remote address may be missing, and `None`
  ends up in the exception handler as `"Error processing IP: None"`.
- **`get_client_ip`** (`client_ip.dfy`, module `ClientAddress`). It scans
  `X-Forwarded-For`, `X-Real-IP`, `X-Forwarded`, `X-Cluster-Client-IP` and
  `CF-Connecting-IP` in that order. It takes the first one with a non-empty
  value. If that value holds a comma, only the first comma-separated item is
  kept, with surrounding whitespace removed. If no header qualifies, the
  connection's remote address is the answer. The scan is a `while` loop in
  `GetClientIp`, proved equal to the recursive rule `SelectFrom`.
- **The response record** of `handle_request` and `catch_all` (`app.dfy`,
  module `App`). It holds the original address, the reversed one, the method,
  the path (with `/` added in front by the catch-all handler) and the user
  agent, which defaults to `"Unknown"`.
- **The Python string built-ins** these rely on (`pystr.dfy`, module `PyStr`):
  `str.split` with one separator character, `str.join`, the slice reversal
  `[::-1]` and `str.strip()`. `strip()` removes exactly the characters for
  which Python's `str.isspace()` holds.

`get_client_ip` sees a request as two inputs: a map from header name to
value, and an optional remote address. The handlers also take the request's
method and path, as plain strings, and copy them into the record. Routing,
status codes and `jsonify` are not modelled.

## Model

| member | source | states |
|---|---|---|
| `PyStr.Split` | app.py:44 | `s.split(d)` has one more segment than `s` has separators, and no segment contains the separator |
| `PyStr.Join` | app.py:47 | no contract of its own: `JoinSplit` and `SplitJoin` show `d.join` undoes `split(d)`, and `JoinFour` spells out the join of four parts |
| `PyStr.JoinSplit` | app.py:44-47 | joining the segments of a split with the same separator gives the original string back |
| `PyStr.SplitJoin` | app.py:44-47 | splitting a join of separator-free parts (at least one part) gives the parts back |
| `PyStr.SplitWithoutSeparator` | app.py:44-45 | a string without the separator splits into a single segment, itself |
| `PyStr.SplitFirstSegment` | app.py:28 | `s.split(d)[0]` is the text before the first occurrence of `d` |
| `PyStr.Reverse` | app.py:46 | `[::-1]` keeps the length, and element `i` of the result is element `len - 1 - i` of the input |
| `PyStr.ReverseReverse` | app.py:46 | reversing twice gives the sequence back |
| `PyStr.StripStart` | app.py:28 | the forward scan of `strip()` stops at the first non-whitespace character: everything it passes is whitespace |
| `PyStr.StripEnd` | app.py:28 | the backward scan of `strip()` stops after the last non-whitespace character that is not before its start point: everything it passes is whitespace |
| `PyStr.Strip` | app.py:28 | a stripped, non-empty string neither starts nor ends with whitespace |
| `PyStr.IsSpace` | app.py:28 | no contract of its own: the set of characters for which Python's `str.isspace()` holds, which `strip()` removes |
| `PyStr.StripIsTrimmedSlice` | app.py:28 | `strip()` returns a contiguous slice of its input, with only whitespace before and after it |
| `PyStr.StripUnique` | app.py:28 | any slice with only whitespace around it and no whitespace at either of its ends is exactly what `strip()` returns |
| `PyStr.StripIdempotent` | app.py:28 | stripping twice equals stripping once |
| `IpReversal.ReverseFourSegments` | app.py:44-47 | for any four dot-free segments, `a.b.c.e` becomes `e.c.b.a`, empty or non-numeric segments included |
| `IpReversal.FourSegmentsReversed` | app.py:44-47 | an address with exactly three dots is its four segments joined by `.`, and the answer joins them in reverse order |
| `IpReversal.ReverseExample` | app.py:40 | `1.2.3.4` becomes `4.3.2.1` |
| `IpReversal.ReverseOnlyDots` | app.py:44-47 | `...` (four empty segments) is reversed to `...` rather than rejected |
| `IpReversal.ReversePreservesCharacters` | app.py:44-47 | reversing a four-segment address keeps its length and its multiset of characters, and the result again has four segments |
| `IpReversal.ReverseInvolution` | app.py:44-47 | reversing a four-segment address twice gives the address back |
| `IpReversal.InvalidFormatExactly` | app.py:45-50 | the answer is `"Invalid IP format: " + s` if and only if `s` does not split into exactly four segments |
| `IpReversal.NoDotsIsSingleSegment` | app.py:48-50 | an address without dots (an IPv6 address, say) is one segment and gets the invalid-format answer |
| `IpReversal.ProcessingErrorExactly` | app.py:51-53 | the answer is `"Error processing IP: None"` if and only if the argument is `None` |
| `IpReversal.ReverseIp` | app.py:37-53 | no contract of its own; `ReverseFourSegments`, `FourSegmentsReversed`, `ReverseInvolution`, `ReversePreservesCharacters`, `InvalidFormatExactly` and `ProcessingErrorExactly` describe each of its three branches |
| `IpReversal.Show` | app.py:50-53 | no contract of its own: how the f-strings of both error answers render a `str` (unchanged) or `None` (as `None`); `InvalidFormatExactly` and `ProcessingErrorExactly` state the texts it produces |
| `ClientAddress.FirstItem` | app.py:26-28 | the part kept of a header value never contains a comma |
| `ClientAddress.GetClientIp` | app.py:10-35 | the loop returns the rule's answer: the kept part of the first qualifying header's value, or the remote address when none qualifies |
| `ClientAddress.Get` | app.py:24 | no contract of its own: `headers.get(name)`, the value if present and `None` otherwise; `LaterHeadersIgnored` compares requests through it |
| `ClientAddress.Qualifies` | app.py:24-25 | no contract of its own: the `if ip:` test, present and non-empty; `EmptyValueIsAbsent` shows an empty value counts as absent |
| `ClientAddress.SelectFrom` | app.py:23-35 | no contract of its own: the recursive selection rule; `SelectFirstQualifying`, `SelectFallback`, `QualifyingHeaderAnswers` and `SelectSource` describe it, and `GetClientIp` is proved equal to it |
| `ClientAddress.ClientIp` | app.py:15-35 | no contract of its own: the selection rule over the five proxy headers in their fixed order; `GetClientIp` is proved equal to it |
| `ClientAddress.SelectFirstQualifying` | app.py:23-30 | the first header, in list order, that is present and non-empty decides the answer |
| `ClientAddress.SelectFallback` | app.py:32-35 | when no listed header is present and non-empty, the answer is the remote address |
| `ClientAddress.QualifyingHeaderAnswers` | app.py:23-30 | if any listed header is present and non-empty, the answer comes from a header and is never the missing remote address |
| `ClientAddress.FirstQualifyingExists` | app.py:23-25 | a qualifying header at position `k` means a first qualifying header exists at or before `k` |
| `ClientAddress.LaterHeadersIgnored` | app.py:23-30 | two requests that agree up to and including the first qualifying header get the same answer, whatever their later headers and remote addresses |
| `ClientAddress.EmptyValueIsAbsent` | app.py:24-25 | a header set to the empty string gives the same answer as the header being absent |
| `ClientAddress.UnlistedHeaderIgnored` | app.py:15-21 | setting a header that is not in the list never changes the answer |
| `ClientAddress.SelectSource` | app.py:23-35 | the answer is the remote address, or the kept part of the first qualifying header's value |
| `ClientAddress.FirstItemBeforeComma` | app.py:27-28 | a value with a comma keeps the stripped text before its first comma |
| `ClientAddress.FirstItemWithoutComma` | app.py:27-30 | a value without a comma is kept unchanged, surrounding whitespace included |
| `ClientAddress.FirstItemTrimmed` | app.py:28 | the first item taken from a comma-separated value has no whitespace at either end |
| `App.ResponseReversal` | app.py:60-69 | the record's original address is the selected client address. Reversing its reversed field gives back a four-segment original, with the same length. The `None` error text appears exactly when no header qualifies and no remote address exists |
| `App.CatchAllIsRootWithSlash` | app.py:87-96 | the catch-all record equals the root record for the captured path with `/` in front, and its path starts with `/` |
| `App.UserAgentDefault` | app.py:68 | the user agent is the header's value whenever the header is present (even if empty), and `"Unknown"` otherwise |
| `App.UserAgent` | app.py:68 | no contract of its own: `headers.get('User-Agent', 'Unknown')`; `UserAgentDefault` describes it |
| `App.BuildResponse` | app.py:63-69 | no contract of its own: the five-field record; `ResponseReversal` describes its address fields for any path |
| `App.HandleRequest` | app.py:60-69 | no contract of its own: the record with the request's own path; `ResponseReversal` applies to it with that path |
| `App.CatchAll` | app.py:87-96 | no contract of its own: the record with `/` put before the captured path; `CatchAllIsRootWithSlash` relates it to `HandleRequest` |

## Left out

- Flask routing, `jsonify`, the status code, `app.run` and the `/health` endpoint: web-framework plumbing with no logic of its own.
- Logging (the `logger` calls): output only, no effect on any answer.
- Header lookup is by exact name. Flask's header object matches names case-insensitively; that object is not part of this model. A header sent several times reaches the program as one comma-joined value, which the comma rule then splits.
- Inputs to `reverse_ip` are a `str` or `None` only. Nothing else can reach it from `get_client_ip`, so the exception handler is modelled for `None` alone.
- Text is a sequence of Unicode scalar values. Python's `str` can also hold lone surrogates, which have no counterpart in Dafny's `char`.
- The Minikube bootstrap scripts, Terraform and Jenkins files of the repository: they drive external tools; none of them are part of this model.

Where the Python is ambiguous, the source code was followed. Its comment calls the `else` branch of `reverse_ip` the IPv6 case. The model instead follows the code: any value with exactly three dots is reversed. An IPv4-mapped IPv6 address such as `::ffff:1.2.3.4` is therefore reversed, not rejected (see `IpReversal.ReverseFourSegments`).
