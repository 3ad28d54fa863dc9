/**
 `reverse_ip`: reverses the order of the dot-separated segments of an
 address that has exactly four of them, and answers with a fixed message
 otherwise. Segments are not checked to be numbers or to lie in any range.
 The argument is a `str` or `None` (the remote address Flask reports may be
 missing); `None` has no `split` and lands in the exception handler.
 */
module IpReversal {
  import opened PyStr

  const InvalidFormatPrefix := "Invalid IP format: "
  const ProcessingErrorPrefix := "Error processing IP: "

  /** Python's `f"{x}"` of a `str` or `None`. */
  function Show(x: Option<string>): string {
    match x
    case None => "None"
    case Some(s) => s
  }

  function ReverseIp(ip: Option<string>): string {
    match ip
    case None => ProcessingErrorPrefix + Show(ip)
    case Some(s) =>
      var segments := Split(s, '.');
      if |segments| == 4 then Join(Reverse(segments), '.')
      else InvalidFormatPrefix + Show(ip)
  }

  /** An address of the form `a.b.c.e` (no dots inside the segments). */
  predicate HasFourSegments(s: string) {
    Count(s, '.') == 3
  }

  /** A four-segment address reads back to front: `a.b.c.e` becomes `e.c.b.a`,
      whatever the segments hold. */
  lemma ReverseFourSegments(a: string, b: string, c: string, e: string)
    requires '.' !in a && '.' !in b && '.' !in c && '.' !in e
    ensures ReverseIp(Some(a + "." + b + "." + c + "." + e)) == e + "." + c + "." + b + "." + a
  {
    var s := a + "." + b + "." + c + "." + e;
    JoinFour(a, b, c, e, '.');
    SplitJoin([a, b, c, e], '.');
    assert Split(s, '.') == [a, b, c, e];
    var r := Reverse([a, b, c, e]);
    assert r == [e, c, b, a] by {
      assert r[0] == e && r[1] == c && r[2] == b && r[3] == a;
    }
    JoinFour(e, c, b, a, '.');
  }

  /** Exactly three dots means four segments, and the answer is those
      segments in reverse order. */
  lemma FourSegmentsReversed(s: string)
    requires HasFourSegments(s)
    ensures var p := Split(s, '.');
            && s == p[0] + "." + p[1] + "." + p[2] + "." + p[3]
            && ReverseIp(Some(s)) == p[3] + "." + p[2] + "." + p[1] + "." + p[0]
  {
    var p := Split(s, '.');
    assert |p| == 4;
    assert p == [p[0], p[1], p[2], p[3]];
    JoinSplit(s, '.');
    JoinFour(p[0], p[1], p[2], p[3], '.');
    assert s == p[0] + "." + p[1] + "." + p[2] + "." + p[3];
    ReverseFourSegments(p[0], p[1], p[2], p[3]);
  }

  /** The example of the docstring. */
  lemma ReverseExample()
    ensures ReverseIp(Some("1.2.3.4")) == "4.3.2.1"
  {
    assert "1" + "." + "2" + "." + "3" + "." + "4" == "1.2.3.4";
    assert "4" + "." + "3" + "." + "2" + "." + "1" == "4.3.2.1";
    ReverseFourSegments("1", "2", "3", "4");
  }

  /** Empty segments are reversed like any others. */
  lemma ReverseOnlyDots()
    ensures ReverseIp(Some("...")) == "..."
  {
    ReverseFourSegments("", "", "", "");
    assert "" + "." + "" + "." + "" + "." + "" == "...";
  }

  /** Reversal keeps the length and the very characters of the address,
      and the result again has four segments. */
  lemma ReversePreservesCharacters(s: string)
    requires HasFourSegments(s)
    ensures multiset(ReverseIp(Some(s))) == multiset(s)
    ensures |ReverseIp(Some(s))| == |s|
    ensures HasFourSegments(ReverseIp(Some(s)))
  {
    FourSegmentsReversed(s);
  }

  /** Reversing twice gives the address back. */
  lemma ReverseInvolution(s: string)
    requires HasFourSegments(s)
    ensures ReverseIp(Some(ReverseIp(Some(s)))) == s
  {
    var p := Split(s, '.');
    FourSegmentsReversed(s);
    ReverseFourSegments(p[3], p[2], p[1], p[0]);
  }

  /** The "invalid format" answer is given exactly when the address does not
      split into four segments; an address without dots, such as an IPv6
      one, is a single segment. */
  lemma InvalidFormatExactly(s: string)
    ensures ReverseIp(Some(s)) == InvalidFormatPrefix + s <==> !HasFourSegments(s)
  {
    if HasFourSegments(s) {
      ReversePreservesCharacters(s);
    }
  }

  lemma NoDotsIsSingleSegment(s: string)
    requires '.' !in s
    ensures Split(s, '.') == [s]
    ensures ReverseIp(Some(s)) == InvalidFormatPrefix + s
  {
    SplitWithoutSeparator(s, '.');
  }

  /** The processing-error answer is given for `None` and for nothing else. */
  lemma ProcessingErrorExactly(ip: Option<string>)
    ensures ReverseIp(ip) == ProcessingErrorPrefix + "None" <==> ip.None?
  {
    if ip.Some? {
      var s := ip.value;
      var r := ReverseIp(ip);
      if HasFourSegments(s) {
        ReversePreservesCharacters(s);
        var m := ProcessingErrorPrefix + "None";
        assert forall k | 0 <= k < |m| :: m[k] != '.';
        assert '.' !in multiset(m);
      } else {
        assert r[0] == 'I';
      }
    }
  }
}
