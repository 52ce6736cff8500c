/**
 * copy_extensions: carrying the extensions of a request into the certificate,
 * beside or instead of those already there.
 */
module Extensions {
  import opened Sequences

  datatype Extension = Extension(oid: nat, critical: bool, data: string)

  const EXT_COPY_NONE: int := 0
  const EXT_COPY_ADD: int := 1
  const EXT_COPY_ALL: int := 2

  predicate Has(exts: seq<Extension>, oid: nat) {
    exists i :: 0 <= i < |exts| && exts[i].oid == oid
  }

  // ----- what is to be in the certificate -----

  /** The extensions of `exts` whose type is not among those of `req`. */
  function Without(exts: seq<Extension>, req: seq<Extension>): seq<Extension> {
    if exts == [] then [] else
      var n := |exts| - 1;
      Without(exts[..n], req) + if Has(req, exts[n].oid) then [] else [exts[n]]
  }

  /** The first extension of each type of `req` that `exts` lacks, in order. */
  function Firsts(exts: seq<Extension>, req: seq<Extension>): seq<Extension> {
    if req == [] then [] else
      var n := |req| - 1;
      Firsts(exts, req[..n]) + if Has(exts, req[n].oid) || Has(req[..n], req[n].oid) then [] else [req[n]]
  }

  /** The last extension of each type of `req`, in order of those last places. */
  function Lasts(req: seq<Extension>): seq<Extension> {
    if req == [] then []
    else if Has(req[1..], req[0].oid) then Lasts(req[1..])
    else [req[0]] + Lasts(req[1..])
  }

  function Copied(exts: seq<Extension>, req: seq<Extension>, copyType: int): seq<Extension> {
    if copyType == EXT_COPY_NONE then exts
    else if copyType == EXT_COPY_ADD then exts + Firsts(exts, req)
    else Without(exts, req) + Lasts(req)
  }

  function Count(exts: seq<Extension>, oid: nat): nat {
    if exts == [] then 0 else Count(exts[..|exts| - 1], oid) + if exts[|exts| - 1].oid == oid then 1 else 0
  }

  // ----- about these lists -----

  lemma HasOne(e: Extension, oid: nat)
    ensures Has([e], oid) <==> e.oid == oid
  {
    assert [e][0] == e;
  }

  lemma WithoutOne(x: Extension, e: Extension)
    ensures Without([x], [e]) == if x.oid == e.oid then [] else [x]
  {
    HasOne(e, x.oid);
    assert [x][..0] == [];
  }

  lemma HasAppend(a: seq<Extension>, b: seq<Extension>, oid: nat)
    ensures Has(a + b, oid) <==> Has(a, oid) || Has(b, oid)
  {
    var c := a + b;
    if i :| 0 <= i < |a| && a[i].oid == oid {
      assert c[i].oid == oid;
    }
    if i :| 0 <= i < |b| && b[i].oid == oid {
      assert c[|a| + i].oid == oid;
    }
  }

  lemma {:induction false} FirstsHas(exts: seq<Extension>, req: seq<Extension>, oid: nat)
    ensures Has(Firsts(exts, req), oid) <==> Has(req, oid) && !Has(exts, oid)
  {
    if req != [] {
      var n := |req| - 1;
      FirstsHas(exts, req[..n], oid);
      assert req == req[..n] + [req[n]];
      HasAppend(req[..n], [req[n]], oid);
      HasAppend(Firsts(exts, req[..n]), if Has(exts, req[n].oid) || Has(req[..n], req[n].oid) then [] else [req[n]],
                oid);
      assert [req[n]][0] == req[n];
    }
  }

  lemma {:induction false} WithoutAppend(a: seq<Extension>, b: seq<Extension>, req: seq<Extension>)
    ensures Without(a + b, req) == Without(a, req) + Without(b, req)
  {
    if b == [] {
      assert a + b == a;
      assert Without(a, req) + [] == Without(a, req);
    } else {
      hide Has, Without;
      var front, e := b[..|b| - 1], b[|b| - 1];
      WithoutAppend(a, front, req);
      assert b == front + [e];
      WithoutNext(front, req, e);
      WithoutNext(a + front, req, e);
      Associate(a, front, [e]);
      Associate(Without(a, req), Without(front, req), [e]);
    }
  }

  /** Removing further types one by one. */
  lemma {:induction false} WithoutTwice(exts: seq<Extension>, req: seq<Extension>, e: Extension)
    ensures Without(Without(exts, req), [e]) == Without(exts, req + [e])
  {
    if exts != [] {
      var n := |exts| - 1;
      WithoutTwice(exts[..n], req, e);
      HasAppend(req, [e], exts[n].oid);
      var last: seq<Extension> := if Has(req, exts[n].oid) then [] else [exts[n]];
      WithoutAppend(Without(exts[..n], req), last, [e]);
      assert [exts[n]][..0] == [];
    }
  }

  /** One more request extension displaces an earlier one of its type. */
  lemma {:induction false} LastsNext(req: seq<Extension>, e: Extension)
    ensures Lasts(req + [e]) == Without(Lasts(req), [e]) + [e]
  {
    if req == [] {
      assert req + [e] == [e] && [e][1..] == [] && !Has([], e.oid);
    } else {
      var first, rest := req[0], req[1..];
      hide Has, Without;
      LastsNext(rest, e);
      assert (req + [e])[1..] == rest + [e];
      HasAppend(rest, [e], first.oid);
      HasOne(e, first.oid);
      WithoutAppend([first], Lasts(rest), [e]);
      WithoutOne(first, e);
      if !Has(rest, first.oid) {
        assert Lasts(req) == [first] + Lasts(rest);
        if e.oid == first.oid {
          assert [] + Without(Lasts(rest), [e]) == Without(Lasts(rest), [e]);
        } else {
          assert [first] + (Without(Lasts(rest), [e]) + [e]) == [first] + Without(Lasts(rest), [e]) + [e];
        }
      }
    }
  }

  lemma {:induction false} CountAppend(a: seq<Extension>, b: seq<Extension>, oid: nat)
    ensures Count(a + b, oid) == Count(a, oid) + Count(b, oid)
  {
    if b == [] {
      assert a + b == a;
    } else {
      CountAppend(a, b[..|b| - 1], oid);
      assert (a + b)[..|a + b| - 1] == a + b[..|b| - 1];
    }
  }

  lemma {:induction false} LastsCount(req: seq<Extension>, oid: nat)
    ensures Count(Lasts(req), oid) == if Has(req, oid) then 1 else 0
  {
    if req != [] {
      LastsCount(req[1..], oid);
      assert req == [req[0]] + req[1..];
      HasAppend([req[0]], req[1..], oid);
      CountAppend([req[0]], Lasts(req[1..]), oid);
      CountOne(req[0], oid);
      HasOne(req[0], oid);
    }
  }

  /**
   * EXT_COPY_ALL leaves exactly one extension of each requested type, and none of
   * the certificate's own of that type.
   */
  lemma CopyAllIsSingle(exts: seq<Extension>, req: seq<Extension>, oid: nat)
    ensures Has(req, oid) ==> Count(Copied(exts, req, EXT_COPY_ALL), oid) == 1
    ensures !Has(req, oid) ==> Count(Copied(exts, req, EXT_COPY_ALL), oid) == Count(exts, oid)
  {
    CountAppend(Without(exts, req), Lasts(req), oid);
    LastsCount(req, oid);
    WithoutCount(exts, req, oid);
  }

  /** EXT_COPY_ADD keeps what is there and adds one extension of each type that was missing. */
  lemma CopyAddIsMissing(exts: seq<Extension>, req: seq<Extension>, oid: nat)
    ensures exts <= Copied(exts, req, EXT_COPY_ADD)
    ensures Count(Copied(exts, req, EXT_COPY_ADD), oid) ==
              Count(exts, oid) + if Has(req, oid) && !Has(exts, oid) then 1 else 0
  {
    CountAppend(exts, Firsts(exts, req), oid);
    FirstsCount(exts, req, oid);
  }

  lemma {:induction false} FirstsCount(exts: seq<Extension>, req: seq<Extension>, oid: nat)
    ensures Count(Firsts(exts, req), oid) == if Has(req, oid) && !Has(exts, oid) then 1 else 0
  {
    if req != [] {
      hide Has;
      var n := |req| - 1;
      FirstsCount(exts, req[..n], oid);
      assert req == req[..n] + [req[n]];
      HasAppend(req[..n], [req[n]], oid);
      HasOne(req[n], oid);
      var last: seq<Extension> := if Has(exts, req[n].oid) || Has(req[..n], req[n].oid) then [] else [req[n]];
      CountAppend(Firsts(exts, req[..n]), last, oid);
      CountOne(req[n], oid);
    } else {
      assert !Has(req, oid);
    }
  }

  lemma CountOne(e: Extension, oid: nat)
    ensures Count([e], oid) == if e.oid == oid then 1 else 0
  {
    assert [e][..0] == [];
  }

  lemma WithoutNext(exts: seq<Extension>, req: seq<Extension>, e: Extension)
    ensures Without(exts + [e], req) == if Has(req, e.oid) then Without(exts, req) else Without(exts, req) + [e]
  {
    hide Has;
    assert (exts + [e])[..|exts|] == exts;
    assert Without(exts, req) + [] == Without(exts, req);
  }

  lemma {:induction false} WithoutCount(exts: seq<Extension>, req: seq<Extension>, oid: nat)
    ensures Count(Without(exts, req), oid) == if Has(req, oid) then 0 else Count(exts, oid)
  {
    if exts != [] {
      hide Has, Count, Without;
      var front, e := exts[..|exts| - 1], exts[|exts| - 1];
      assert exts == front + [e];
      WithoutCount(front, req, oid);
      WithoutNext(front, req, e);
      CountOne(e, oid);
      CountAppend(front, [e], oid);
      CountAppend(Without(front, req), [e], oid);
    }
  }

  /** The extension kept for a requested type is the last one requested. */
  lemma {:induction false} LastsAreLast(req: seq<Extension>, i: nat)
    requires i < |req|
    ensures !Has(req[i + 1..], req[i].oid) ==> req[i] in Lasts(req)
    ensures forall e <- Lasts(req) :: exists j :: 0 <= j < |req| && req[j] == e && !Has(req[j + 1..], e.oid)
  {
    var rest := req[1..];
    if i > 0 {
      LastsAreLast(rest, i - 1);
      assert rest[i - 1] == req[i] && rest[i..] == req[i + 1..];
    } else if rest != [] {
      LastsAreLast(rest, 0);
    }
    forall e | e in Lasts(req) ensures exists j :: 0 <= j < |req| && req[j] == e && !Has(req[j + 1..], e.oid) {
      if e in Lasts(rest) {
        var j :| 0 <= j < |rest| && rest[j] == e && !Has(rest[j + 1..], e.oid);
        assert req[j + 1] == e && req[j + 2..] == rest[j + 1..];
      } else {
        assert req[0] == e && !Has(req[1..], e.oid);
      }
    }
  }

  /** The extension added for a missing type is the first one requested. */
  lemma {:induction false} FirstsAreFirst(exts: seq<Extension>, req: seq<Extension>, i: nat)
    requires i < |req|
    ensures !Has(exts, req[i].oid) && !Has(req[..i], req[i].oid) ==> req[i] in Firsts(exts, req)
    ensures forall e <- Firsts(exts, req) :: exists j :: 0 <= j < |req| && FirstFor(exts, req, e, j)
    decreases |req|
  {
    hide Has;
    var n := |req| - 1;
    var front := req[..n];
    assert forall j :: 0 <= j < n ==> front[j] == req[j] && front[..j] == req[..j];
    if i < n {
      FirstsAreFirst(exts, front, i);
    } else if n > 0 {
      FirstsAreFirst(exts, front, 0);
    }
    forall e | e in Firsts(exts, req) ensures exists j :: 0 <= j < |req| && FirstFor(exts, req, e, j) {
      if e in Firsts(exts, front) {
        var j :| 0 <= j < n && FirstFor(exts, front, e, j);
        assert FirstFor(exts, req, e, j);
      } else {
        assert FirstFor(exts, req, e, n);
      }
    }
  }

  /** `e` is the j-th request extension, and the first of a type that `exts` lacks. */
  predicate FirstFor(exts: seq<Extension>, req: seq<Extension>, e: Extension, j: nat)
    requires j < |req|
  {
    req[j] == e && !Has(exts, e.oid) && !Has(req[..j], e.oid)
  }

  // ----- the order of these lists -----

  /** What is kept of the certificate's own are the extensions of other types, in order. */
  lemma {:induction false} WithoutInOrder(exts: seq<Extension>, req: seq<Extension>) returns (at: seq<nat>)
    ensures Picks(exts, at, Without(exts, req))
    ensures forall j :: 0 <= j < |exts| ==> (j in at <==> !Has(req, exts[j].oid))
    decreases |exts|
  {
    hide Has, Without, Picks;
    at := [];
    if exts == [] {
      NoneWithout(req);
      PicksNone(exts);
    } else {
      var front, e := exts[..|exts| - 1], exts[|exts| - 1];
      assert exts == front + [e];
      at := WithoutInOrder(front, req);
      WithoutNext(front, req, e);
      PicksLonger(front, at, Without(front, req), e);
      assert forall j :: 0 <= j < |front| ==> front[j] == exts[j];
      PicksBelow(front, at, Without(front, req));
      if !Has(req, e.oid) {
        at := at + [|front|];
      }
    }
  }

  lemma NoneWithout(req: seq<Extension>)
    ensures Without([], req) == []
  {
  }

  lemma PicksBelow(from: seq<Extension>, at: seq<nat>, picked: seq<Extension>)
    requires Picks(from, at, picked)
    ensures |from| !in at
  {
  }

  /** The extensions added for missing types are the first of each, in order. */
  lemma {:induction false} FirstsInOrder(exts: seq<Extension>, req: seq<Extension>) returns (at: seq<nat>)
    ensures Picks(req, at, Firsts(exts, req))
    ensures forall j :: 0 <= j < |req| ==> (j in at <==> FirstFor(exts, req, req[j], j))
    decreases |req|
  {
    hide Has, Picks;
    at := [];
    if req == [] {
      PicksNone(req);
    } else {
      var front, e := req[..|req| - 1], req[|req| - 1];
      assert req == front + [e];
      at := FirstsInOrder(exts, front);
      PicksLonger(front, at, Firsts(exts, front), e);
      assert forall j :: 0 <= j < |front| ==> front[j] == req[j] && front[..j] == req[..j];
      PicksBelow(front, at, Firsts(exts, front));
      if Has(exts, e.oid) || Has(front, e.oid) {
        assert Firsts(exts, front) + [] == Firsts(exts, front);
      } else {
        at := at + [|front|];
      }
    }
  }

  /** The extensions kept for requested types are the last of each, in order. */
  lemma {:induction false} LastsInOrder(req: seq<Extension>) returns (at: seq<nat>)
    ensures Picks(req, at, Lasts(req))
    ensures forall j :: 0 <= j < |req| ==> (j in at <==> !Has(req[j + 1..], req[j].oid))
    decreases |req|
  {
    hide Has, Picks, Later;
    at := [];
    if req == [] {
      PicksNone(req);
    } else {
      var rest := req[1..];
      var more := LastsInOrder(rest);
      assert req == [req[0]] + rest;
      PicksLater(rest, more, Lasts(rest), req[0]);
      at := if Has(rest, req[0].oid) then Later(more) else [0] + Later(more);
      forall j: nat | j < |req| ensures j in at <==> !Has(req[j + 1..], req[j].oid) {
        LaterIn(more, j);
        if j > 0 {
          assert req[j] == rest[j - 1] && req[j + 1..] == rest[j..];
        }
      }
    }
  }

  // ----- in place -----

  class Certificate {
    var exts: seq<Extension>

    constructor (exts: seq<Extension>)
      ensures this.exts == exts
    {
      this.exts := exts;
    }

    /** X509_get_ext_by_OBJ from the start: the first extension of the type, or -1. */
    method GetExtByObj(oid: nat) returns (idx: int)
      ensures idx == -1 <==> !Has(exts, oid)
      ensures idx != -1 ==> 0 <= idx < |exts| && exts[idx].oid == oid
    {
      idx := 0;
      while idx < |exts|
        invariant 0 <= idx <= |exts| && forall k :: 0 <= k < idx ==> exts[k].oid != oid
      {
        if exts[idx].oid == oid {
          return;
        }
        idx := idx + 1;
      }
      idx := -1;
    }

    /** The do-while loop: deletes every extension of a type that occurs at `first`. */
    method DeleteAll(e: Extension, first: nat)
      requires first < |exts| && exts[first].oid == e.oid
      modifies this
      ensures exts == Without(old(exts), [e])
    {
      ghost var before := exts;
      var idx: int := first;
      while idx != -1
        invariant idx == -1 <==> !Has(exts, e.oid)
        invariant idx != -1 ==> 0 <= idx < |exts| && exts[idx].oid == e.oid
        invariant Without(exts, [e]) == Without(before, [e])
        decreases |exts|
      {
        hide Without, Has;
        WithoutDelete(exts, idx, e);
        exts := exts[..idx] + exts[idx + 1..];
        idx := GetExtByObj(e.oid);
      }
      WithoutNothing(exts, e);
    }

    /** One turn of the loop in copy_extensions. */
    method CopyOne(ext: Extension, copyType: int)
      modifies this
      ensures exts ==
                if copyType == EXT_COPY_ADD && Has(old(exts), ext.oid) then old(exts)
                else Without(old(exts), [ext]) + [ext]
    {
      hide Has, Without;
      var idx := GetExtByObj(ext.oid);
      if idx != -1 {
        if copyType == EXT_COPY_ADD {
          return;
        }
        DeleteAll(ext, idx);
      } else {
        WithoutNothing(exts, ext);
      }
      exts := exts + [ext];
    }

    /** copy_extensions */
    method CopyExtensions(req: seq<Extension>, copyType: int)
      modifies this
      ensures exts == Copied(old(exts), req, copyType)
      ensures copyType == EXT_COPY_NONE ==> exts == old(exts)
      ensures copyType == EXT_COPY_ADD ==> old(exts) <= exts
    {
      if copyType == EXT_COPY_NONE {
        return;
      }
      hide Copied, Without, Has;
      ghost var before := exts;
      assert req[..0] == [];
      NothingCopied(before, copyType);
      var i := 0;
      while i < |req|
        invariant 0 <= i <= |req|
        invariant exts == Copied(before, req[..i], copyType)
      {
        var ext := req[i];
        assert req[..i + 1] == req[..i] + [ext];
        CopiedNext(before, req[..i], ext, copyType);
        CopyOne(ext, copyType);
        i := i + 1;
      }
      assert req[..i] == req;
    }
  }

  lemma NothingCopied(exts: seq<Extension>, copyType: int)
    ensures Copied(exts, [], copyType) == exts
  {
    assert exts + [] == exts;
    NothingWithout(exts);
  }

  /** One more request extension, in either mode. */
  lemma CopiedNext(exts: seq<Extension>, req: seq<Extension>, e: Extension, copyType: int)
    requires copyType != EXT_COPY_NONE
    ensures var now, next := Copied(exts, req, copyType), Copied(exts, req + [e], copyType);
            next == if copyType == EXT_COPY_ADD && Has(now, e.oid) then now else Without(now, [e]) + [e]
  {
    hide Without, Has;
    if copyType == EXT_COPY_ADD {
      var firsts := Firsts(exts, req);
      HasAppend(exts, firsts, e.oid);
      FirstsHas(exts, req, e.oid);
      assert (req + [e])[..|req|] == req;
      if !Has(exts + firsts, e.oid) {
        WithoutNothing(exts + firsts, e);
        assert exts + (firsts + [e]) == exts + firsts + [e];
      } else {
        assert firsts + [] == firsts;
      }
    } else {
      WithoutAppend(Without(exts, req), Lasts(req), [e]);
      WithoutTwice(exts, req, e);
      LastsNext(req, e);
      assert Without(exts, req + [e]) + (Without(Lasts(req), [e]) + [e]) == Without(exts, req + [e]) +
        Without(Lasts(req), [e]) + [e];
    }
  }

  lemma WithoutDelete(exts: seq<Extension>, idx: nat, e: Extension)
    requires idx < |exts| && exts[idx].oid == e.oid
    ensures Without(exts[..idx] + exts[idx + 1..], [e]) == Without(exts, [e])
  {
    hide Without, Has;
    var a, b := exts[..idx], exts[idx + 1..];
    assert exts == a + ([exts[idx]] + b);
    WithoutAppend(a, [exts[idx]] + b, [e]);
    WithoutAppend([exts[idx]], b, [e]);
    WithoutOne(exts[idx], e);
    WithoutAppend(a, b, [e]);
    assert [] + Without(b, [e]) == Without(b, [e]);
  }

  lemma {:induction false} WithoutNothing(exts: seq<Extension>, e: Extension)
    requires !Has(exts, e.oid)
    ensures Without(exts, [e]) == exts
  {
    if exts != [] {
      var n := |exts| - 1;
      hide Has;
      assert exts == exts[..n] + [exts[n]];
      HasAppend(exts[..n], [exts[n]], e.oid);
      HasOne(exts[n], e.oid);
      HasOne(e, exts[n].oid);
      WithoutNothing(exts[..n], e);
    }
  }

  lemma {:induction false} NothingWithout(exts: seq<Extension>)
    ensures Without(exts, []) == exts
  {
    if exts != [] {
      NothingWithout(exts[..|exts| - 1]);
    }
  }
}
