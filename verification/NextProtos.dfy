/**
 * next_protos_parse: from a comma-separated list to the length-prefixed list
 * format of section 3.1 of RFC 7301.
 */
module NextProtos {
  import opened Options
  import opened Sequences

  type byte = b: int | 0 <= b < 256

  const COMMA: byte := 44

  // ----- the two formats -----

  function FirstComma(s: seq<byte>): (k: nat)
    ensures k <= |s| && (k < |s| ==> s[k] == COMMA)
    ensures COMMA !in s[..k]
  {
    if s == [] || s[0] == COMMA then 0 else
      assert s[..1 + FirstComma(s[1..])] == [s[0]] + s[1..][..FirstComma(s[1..])];
      1 + FirstComma(s[1..])
  }

  /** The segments between commas; there is always at least one, and any may be empty. */
  function Split(s: seq<byte>): seq<seq<byte>> {
    var k := FirstComma(s);
    if k == |s| then [s] else [s[..k]] + Split(s[k + 1..])
  }

  predicate Short(segments: seq<seq<byte>>) {
    forall i :: 0 <= i < |segments| ==> |segments[i]| <= 255
  }

  function Encode(segments: seq<seq<byte>>): seq<byte>
    requires Short(segments)
  {
    if segments == [] then [] else
      var n := |segments| - 1;
      Encode(segments[..n]) + [|segments[n]|] + segments[n]
  }

  function Decode(list: seq<byte>): Option<seq<seq<byte>>> {
    if list == [] then Some([]) else
      var end: int := list[0] as int + 1;
      if |list| < end then None else
        match Decode(list[end..])
        case None => None
        case Some(more) => Some([list[1..end]] + more)
  }

  lemma {:induction false} DecodePrefix(segments: seq<seq<byte>>, tail: seq<byte>)
    requires Short(segments)
    ensures Decode(Encode(segments) + tail) ==
              match Decode(tail)
              case None => None
              case Some(more) => Some(segments + more)
    decreases |segments|
  {
    if segments == [] {
      assert Encode(segments) + tail == tail;
      assert Decode(tail).Some? ==> segments + Decode(tail).value == Decode(tail).value;
    } else {
      hide Encode, Decode;
      var front, last := segments[..|segments| - 1], segments[|segments| - 1];
      assert segments == front + [last];
      EncodeNext(front, last);
      var rest: seq<byte> := [|last|] + last + tail;
      Associate(Encode(front), [|last|], last);
      Associate(Encode(front), [|last|] + last, tail);
      DecodePrefix(front, rest);
      DecodeOne(last, tail);
      if Decode(tail).Some? {
        assert front + ([last] + Decode(tail).value) == front + [last] + Decode(tail).value;
      }
    }
  }

  lemma DecodeOne(segment: seq<byte>, tail: seq<byte>)
    requires |segment| <= 255
    ensures Decode([|segment|] + segment + tail) ==
              match Decode(tail)
              case None => None
              case Some(more) => Some([segment] + more)
  {
    var rest: seq<byte> := [|segment|] + segment + tail;
    assert rest[1 + |segment|..] == tail && rest[1..1 + |segment|] == segment;
  }

  /** Decoding returns the segments that were encoded. */
  lemma DecodeEncode(segments: seq<seq<byte>>)
    requires Short(segments)
    ensures Decode(Encode(segments)) == Some(segments)
  {
    DecodePrefix(segments, []);
    assert Encode(segments) + [] == Encode(segments);
    assert segments + [] == segments;
  }

  lemma {:induction false} FirstCommaIs(s: seq<byte>, k: nat)
    requires k <= |s| && (k < |s| ==> s[k] == COMMA) && COMMA !in s[..k]
    ensures FirstComma(s) == k
  {
    if k > 0 {
      assert s[0] in s[..k] && s[1..][..k - 1] == s[1..k];
      assert forall c :: c in s[1..k] ==> c in s[..k];
      FirstCommaIs(s[1..], k - 1);
    }
  }

  lemma ShortAppend(a: seq<seq<byte>>, b: seq<seq<byte>>)
    ensures Short(a + b) <==> Short(a) && Short(b)
  {
    var c := a + b;
    if Short(c) {
      assert forall i :: 0 <= i < |a| ==> a[i] == c[i];
      assert forall i :: 0 <= i < |b| ==> b[i] == c[|a| + i];
    }
  }

  // ----- the loop -----

  /**
   * Fails exactly when the list has 65535 bytes or more or a segment exceeds
   * 255; otherwise every one of the |s| + 1 output bytes is written, and they
   * are the encoding of the segments.
   */
  method NextProtosParse(s: seq<byte>) returns (out: array?<byte>, outlen: nat)
    ensures out == null <==> |s| >= 65535 || !Short(Split(s))
    ensures out != null ==> Short(Split(s)) && out[..] == Encode(Split(s))
    ensures out != null ==> outlen == out.Length == |s| + 1 && outlen < 0x1_0000
  {
    hide Split, Encode, Short;
    out, outlen := null, 0;
    if |s| >= 65535 {
      return;
    }
    var buf := new byte[|s| + 1];
    var start, i := 0, 0;
    ghost var done: seq<seq<byte>> := [];
    NothingDone(s);
    assert s[start..] == s && s[start..i] == [] && buf[..start] == [];
    while i <= |s|
      invariant 0 <= start <= i <= |s| + 1
      invariant Short(done) && buf[..start] == Encode(done)
      invariant i <= |s| ==> COMMA !in s[start..i] && buf[start + 1..i + 1] == s[start..i]
      invariant i <= |s| ==> Split(s) == done + Split(s[start..])
      invariant i == |s| + 1 ==> start == i && Split(s) == done
    {
      if i == |s| || s[i] == COMMA {
        SegmentDone(s, start, i, done);
        if i - start > 255 {
          return;
        }
        buf[start] := i - start;
        Framed(buf[..], start, i + 1);
        assert buf[..][..start] == buf[..start] && buf[..][..i + 1] == buf[..i + 1] &&
          buf[..][start + 1..i + 1] == buf[start + 1..i + 1];
        done := done + [s[start..i]];
        start := i + 1;
      } else {
        SliceNext(s, start, i);
        buf[i + 1] := s[i];
        SliceNext(buf[..], start + 1, i + 1);
        assert buf[..][start + 1..i + 2] == buf[start + 1..i + 2] && buf[..][start + 1..i + 1] == buf[start + 1..i + 1];
      }
      i := i + 1;
    }
    assert buf[..start] == buf[..];
    out, outlen := buf, |s| + 1;
  }

  lemma SliceNext(s: seq<byte>, a: nat, b: nat)
    requires a <= b < |s|
    ensures s[a..b + 1] == s[a..b] + [s[b]]
  {
  }

  lemma Framed(s: seq<byte>, a: nat, b: nat)
    requires a < b <= |s|
    ensures s[..b] == s[..a] + [s[a]] + s[a + 1..b]
  {
  }

  lemma NothingDone(s: seq<byte>)
    ensures Short([]) && Encode([]) == [] && Split(s) == [] + Split(s)
  {
  }

  /** A segment that is complete at `i`: what it makes of the whole. */
  lemma SegmentDone(s: seq<byte>, start: nat, i: nat, done: seq<seq<byte>>)
    requires start <= i <= |s| && COMMA !in s[start..i]
    requires i < |s| ==> s[i] == COMMA
    requires Short(done) && Split(s) == done + Split(s[start..])
    ensures i - start > 255 ==> !Short(Split(s))
    ensures i - start <= 255 ==>
              && Short(done + [s[start..i]])
              && Encode(done + [s[start..i]]) == Encode(done) + [i - start] + s[start..i]
    ensures i < |s| ==> Split(s) == done + [s[start..i]] + Split(s[i + 1..])
    ensures i == |s| ==> Split(s) == done + [s[start..i]]
  {
    hide Split, Encode;
    var one: seq<seq<byte>> := [s[start..i]];
    var more := if i == |s| then [] else Split(s[i + 1..]);
    SegmentEnds(s, start, i);
    ShortAppend(done, one + more);
    ShortAppend(one, more);
    ShortAppend(done, one);
    assert done + (one + more) == done + one + more;
    assert i - start > 255 ==> |one[0]| > 255;
    if i - start <= 255 {
      assert Short(one);
      EncodeNext(done, s[start..i]);
    }
    assert i == |s| ==> done + one + more == done + one;
  }

  lemma {:induction false} SplitAt(s: seq<byte>, k: nat)
    requires k <= |s| && (k < |s| ==> s[k] == COMMA) && COMMA !in s[..k]
    ensures Split(s) == if k == |s| then [s] else [s[..k]] + Split(s[k + 1..])
  {
    FirstCommaIs(s, k);
  }

  lemma SegmentEnds(s: seq<byte>, start: nat, i: nat)
    requires start <= i <= |s| && COMMA !in s[start..i]
    requires i < |s| ==> s[i] == COMMA
    ensures Split(s[start..]) == [s[start..i]] + if i == |s| then [] else Split(s[i + 1..])
  {
    hide FirstComma, Split;
    var t := s[start..];
    assert t[..i - start] == s[start..i];
    SplitAt(t, i - start);
    if i < |s| {
      assert t[i - start + 1..] == s[i + 1..];
    } else {
      assert t == s[start..i] && [t] + [] == [t];
    }
  }

  // ----- the segments are the input -----

  predicate CommaFree(segments: seq<seq<byte>>) {
    forall i :: 0 <= i < |segments| ==> COMMA !in segments[i]
  }

  /** The segments with a comma between each two. */
  function Joined(segments: seq<seq<byte>>): seq<byte>
    requires segments != []
  {
    if |segments| == 1 then segments[0] else segments[0] + ([COMMA] + Joined(segments[1..]))
  }

  /** The segments are the one way to write the input as texts without commas between commas. */
  lemma SplitIff(s: seq<byte>, segments: seq<seq<byte>>)
    ensures Split(s) == segments <==> segments != [] && CommaFree(segments) && Joined(segments) == s
  {
    SplitJoins(s);
    if segments != [] && CommaFree(segments) && Joined(segments) == s {
      JoinedSplits(segments);
    }
  }

  lemma {:induction false} SplitJoins(s: seq<byte>)
    ensures Split(s) != [] && CommaFree(Split(s)) && Joined(Split(s)) == s
    decreases |s|
  {
    var k := FirstComma(s);
    assert s[..|s|] == s;
    if k < |s| {
      var one, more := s[..k], Split(s[k + 1..]);
      SplitJoins(s[k + 1..]);
      assert ([one] + more)[1..] == more;
      assert s == s[..k] + ([COMMA] + s[k + 1..]);
    }
  }

  lemma {:induction false} JoinedSplits(segments: seq<seq<byte>>)
    requires segments != [] && CommaFree(segments)
    ensures Split(Joined(segments)) == segments
    decreases |segments|
  {
    hide Split;
    var s, k := Joined(segments), |segments[0]|;
    if |segments| == 1 {
      assert s[..k] == s;
      SplitAt(s, k);
    } else {
      var rest := segments[1..];
      assert forall i :: 0 <= i < |rest| ==> rest[i] == segments[i + 1];
      JoinedSplits(rest);
      assert s[..k] == segments[0] && s[k] == COMMA && s[k + 1..] == Joined(rest);
      SplitAt(s, k);
      assert [segments[0]] + rest == segments;
    }
  }

  lemma EncodeNext(done: seq<seq<byte>>, segment: seq<byte>)
    requires Short(done) && Short(done + [segment]) && |segment| <= 255
    ensures Encode(done + [segment]) == Encode(done) + [|segment|] + segment
  {
    assert (done + [segment])[..|done|] == done;
  }
}
