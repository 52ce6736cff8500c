/**
 * The revocation column of the database: a time, perhaps a reason, perhaps an
 * argument, separated by commas. Printed by make_revocation_str, read back by
 * unpack_revinfo and, for the CRL, by make_revoked.
 */
module RevInfo {
  import opened CStrings
  import opened Options
  import opened Times
  import opened Sequences

  // The -revoke options of the command line.
  const REV_NONE: int := 0
  const REV_CRL_REASON: int := 1
  const REV_HOLD: int := 2
  const REV_KEY_COMPROMISE: int := 3
  const REV_CA_COMPROMISE: int := 4

  /** The CRL reasons, then the three pseudo reasons that carry an argument. */
  const CRL_REASONS: seq<string> := [
    "unspecified", "keyCompromise", "CACompromise", "affiliationChanged", "superseded",
    "cessationOfOperation", "certificateHold", "removeFromCRL",
    "holdInstruction", "keyTime", "CAkeyTime"
  ]

  const NO_STATUS: int := -1
  const KEY_COMPROMISE: int := 1
  const CA_COMPROMISE: int := 2
  const CERTIFICATE_HOLD: int := 6
  const REMOVE_FROM_CRL: int := 8

  /** OBJ_txt2obj: the object a text names, if any. */
  type OidParser = string -> Option<nat>

  /** The first reason from the i-th on, among the first n, that `s` names in any case. */
  function FindReason(s: string, i: nat, n: nat): (k: nat)
    requires i <= n <= |CRL_REASONS|
    ensures i <= k <= n
    decreases n - i
  {
    if i == n || EqualNoCase(s, CRL_REASONS[i]) then i else FindReason(s, i + 1, n)
  }

  // ----- printing -----

  /** The reason and the argument that are printed after the time. */
  datatype Fields = Fields(reason: Option<string>, other: Option<string>)

  function FieldsFor(oidOf: OidParser, kind: int, arg: string): Option<Fields> {
    if kind == REV_CRL_REASON then
      var i := FindReason(arg, 0, 8);
      if i == 8 then None else Some(Fields(Some(CRL_REASONS[i]), None))
    else if kind == REV_HOLD then
      if oidOf(arg).None? then None else Some(Fields(Some("holdInstruction"), Some(arg)))
    else if kind == REV_KEY_COMPROMISE || kind == REV_CA_COMPROMISE then
      if !GeneralizedTimeOk(arg) then None
      else Some(Fields(Some(if kind == REV_KEY_COMPROMISE then "keyTime" else "CAkeyTime"), Some(arg)))
    else
      Some(Fields(None, None))
  }

  function Suffix(field: Option<string>): string {
    match field
    case None => ""
    case Some(text) => "," + text
  }

  /** The string make_revocation_str returns when the clock shows `now`. */
  function RevocationString(oidOf: OidParser, now: Instant, kind: int, arg: string): Option<string>
    requires now.Valid()
  {
    match FieldsFor(oidOf, kind, arg)
    case None => None
    case Some(f) => Some(ClockText(now) + Suffix(f.reason) + Suffix(f.other))
  }

  // ----- reading -----

  /** What unpack_revinfo leaves in its result and its out-parameters. */
  datatype Unpacked = Unpacked(ok: bool, time: Option<string>, reason: int, hold: Option<nat>,
                               invalidity: Option<string>)

  function Rejected(time: Option<string>): Unpacked {
    Unpacked(false, time, NO_STATUS, None, None)
  }

  function UnpackFields(oidOf: OidParser, time: string, reason: Option<string>, arg: Option<string>): Unpacked {
    if !UtcTimeOk(time) then Rejected(None)
    else if reason.None? then Unpacked(true, Some(time), NO_STATUS, None, None)
    else
      var i := FindReason(reason.value, 0, 11);
      if i == 11 then Rejected(Some(time))
      else if i == 7 then Unpacked(true, Some(time), REMOVE_FROM_CRL, None, None)
      else if i == 8 then
        if arg.None? || oidOf(arg.value).None? then Rejected(Some(time))
        else Unpacked(true, Some(time), CERTIFICATE_HOLD, oidOf(arg.value), None)
      else if i == 9 || i == 10 then
        if arg.None? || !GeneralizedTimeOk(arg.value) then Rejected(Some(time))
        else Unpacked(true, Some(time), if i == 9 then KEY_COMPROMISE else CA_COMPROMISE, None, arg)
      else Unpacked(true, Some(time), i, None, None)
  }

  /** Everything after the separator at `k`, if there is one. */
  function After(s: string, k: nat): Option<string>
    requires k <= |s|
  {
    if k < |s| then Some(s[k + 1..]) else None
  }

  function Unpack(oidOf: OidParser, str: string): Unpacked {
    var k := IndexOf(str, ',');
    match After(str, k)
    case None => UnpackFields(oidOf, str[..k], None, None)
    case Some(rest) =>
      var j := IndexOf(rest, ',');
      UnpackFields(oidOf, str[..k], Some(rest[..j]), After(rest, j))
  }

  /** A CRL entry: the revocation time and the extensions make_revoked adds. */
  datatype Revoked = Revoked(time: string, reason: Option<int>, invalidity: Option<string>, hold: Option<nat>)

  /** make_revoked: None is its return value 0; the return value is 2 when a reason is present. */
  function MakeRevoked(oidOf: OidParser, str: string): Option<Revoked> {
    var u := Unpack(oidOf, str);
    if !u.ok || u.time.None? then None
    else Some(Revoked(u.time.value, if u.reason == NO_STATUS then None else Some(u.reason), u.invalidity, u.hold))
  }

  // ----- the round trip -----

  /** The reason codes of section 5.3.1 of RFC 5280, by name. */
  function ReasonCode(name: string): Option<int> {
    match name
    case "unspecified" => Some(0)
    case "keyCompromise" => Some(1)
    case "CACompromise" => Some(2)
    case "affiliationChanged" => Some(3)
    case "superseded" => Some(4)
    case "cessationOfOperation" => Some(5)
    case "certificateHold" => Some(6)
    case "removeFromCRL" => Some(8)
    case _ => None
  }

  /** A revocation argument that denotes a reason code, as make_revocation_str should accept it. */
  ghost predicate NamesReason(arg: string, code: int) {
    exists name :: ReasonCode(name) == Some(code) && EqualNoCase(arg, name)
  }

  /** The code a revocation of this kind stands for. */
  ghost predicate MeansReason(kind: int, arg: string, code: int) {
    if kind == REV_CRL_REASON then NamesReason(arg, code)
    else if kind == REV_HOLD then code == 6
    else if kind == REV_KEY_COMPROMISE then code == 1
    else if kind == REV_CA_COMPROMISE then code == 2
    else code == NO_STATUS
  }

  lemma EqualNoCaseSymmetric(a: string, b: string, c: string)
    requires EqualNoCase(a, b) && EqualNoCase(a, c)
    ensures EqualNoCase(b, c)
  {
  }

  /** No two reason names agree up to case. */
  lemma ReasonsDistinct(i: nat, j: nat)
    requires i < j < |CRL_REASONS|
    ensures !EqualNoCase(CRL_REASONS[i], CRL_REASONS[j])
  {
    assert ToLower("keyCompromise"[0]) != ToLower("removeFromCRL"[0]);
    assert ToLower("certificateHold"[0]) != ToLower("holdInstruction"[0]);
  }

  lemma {:induction false} FindReasonFinds(s: string, i: nat, k: nat, n: nat)
    requires i <= k < n <= |CRL_REASONS|
    requires EqualNoCase(s, CRL_REASONS[k])
    ensures FindReason(s, i, n) == k
    decreases k - i
  {
    if i < k {
      if EqualNoCase(s, CRL_REASONS[i]) {
        EqualNoCaseSymmetric(s, CRL_REASONS[i], CRL_REASONS[k]);
        ReasonsDistinct(i, k);
      }
      FindReasonFinds(s, i + 1, k, n);
    }
  }

  lemma {:induction false} FindReasonMatches(s: string, i: nat, n: nat)
    requires i <= n <= |CRL_REASONS|
    ensures var k := FindReason(s, i, n);
            k < n ==> EqualNoCase(s, CRL_REASONS[k])
    decreases n - i
  {
    if i < n && !EqualNoCase(s, CRL_REASONS[i]) {
      FindReasonMatches(s, i + 1, n);
    }
  }

  lemma ReasonTableIsRfc(i: nat)
    requires i < 8
    ensures ReasonCode(CRL_REASONS[i]) == Some(if i == 7 then 8 else i)
  {
  }

  lemma NamedReasonIsInTable(name: string) returns (i: nat)
    requires ReasonCode(name).Some?
    ensures i < 8 && CRL_REASONS[i] == name
  {
    i := if ReasonCode(name).value == 8 then 7 else ReasonCode(name).value;
  }

  /** make_revocation_str accepts exactly reason names, known objects and well-formed times. */
  lemma AcceptedArguments(oidOf: OidParser, now: Instant, kind: int, arg: string)
    requires now.Valid()
    ensures RevocationString(oidOf, now, kind, arg).Some? <==>
              && (kind == REV_CRL_REASON ==> exists code :: NamesReason(arg, code))
              && (kind == REV_HOLD ==> oidOf(arg).Some?)
              && (kind == REV_KEY_COMPROMISE || kind == REV_CA_COMPROMISE ==> GeneralizedTimeOk(arg))
  {
    if kind == REV_CRL_REASON {
      var i := FindReason(arg, 0, 8);
      if i < 8 {
        FindReasonMatches(arg, 0, 8);
        ReasonTableIsRfc(i);
        assert NamesReason(arg, if i == 7 then 8 else i);
      }
      if code :| NamesReason(arg, code) {
        var name :| ReasonCode(name) == Some(code) && EqualNoCase(arg, name);
        var k := NamedReasonIsInTable(name);
        FindReasonFinds(arg, 0, k, 8);
      }
    }
  }

  /** What is written in the row: the time, and after commas the name of the reason and its argument. */
  lemma RevocationStringIs(oidOf: OidParser, now: Instant, kind: int, arg: string)
    requires now.Valid() && RevocationString(oidOf, now, kind, arg).Some?
    ensures var s, time := RevocationString(oidOf, now, kind, arg).value, ClockText(now);
            && (kind == REV_CRL_REASON ==>
                  exists name :: ReasonCode(name).Some? && EqualNoCase(arg, name) && s == time + "," + name)
            && (kind == REV_HOLD ==> s == time + ",holdInstruction" + "," + arg)
            && (kind == REV_KEY_COMPROMISE ==> s == time + ",keyTime" + "," + arg)
            && (kind == REV_CA_COMPROMISE ==> s == time + ",CAkeyTime" + "," + arg)
            && (kind !in {REV_CRL_REASON, REV_HOLD, REV_KEY_COMPROMISE, REV_CA_COMPROMISE} ==> s == time)
  {
    hide FindReason, GeneralizedTimeOk, ClockText, EqualNoCase, ReasonCode, Suffix;
    var time, f := ClockText(now), FieldsFor(oidOf, kind, arg).value;
    if kind == REV_CRL_REASON {
      var i := FindReason(arg, 0, 8);
      FindReasonMatches(arg, 0, 8);
      ReasonTableIsRfc(i);
      OneSuffix(time, CRL_REASONS[i]);
    } else if kind == REV_HOLD {
      TwoSuffixes(time, "holdInstruction", arg);
      assert "," + "holdInstruction" == ",holdInstruction";
    } else if kind == REV_KEY_COMPROMISE {
      TwoSuffixes(time, "keyTime", arg);
      assert "," + "keyTime" == ",keyTime";
    } else if kind == REV_CA_COMPROMISE {
      TwoSuffixes(time, "CAkeyTime", arg);
      assert "," + "CAkeyTime" == ",CAkeyTime";
    } else {
      NoSuffix(time);
    }
  }

  lemma NoSuffix(time: string)
    ensures time + Suffix(None) + Suffix(None) == time
  {
  }

  lemma OneSuffix(time: string, name: string)
    ensures time + Suffix(Some(name)) + Suffix(None) == time + "," + name
  {
    Associate(time, ",", name);
  }

  lemma TwoSuffixes(time: string, name: string, arg: string)
    ensures time + Suffix(Some(name)) + Suffix(Some(arg)) == time + ("," + name) + "," + arg
  {
    Associate(time + ("," + name), ",", arg);
  }

  lemma CutAlone(head: string)
    requires ',' !in head
    ensures IndexOf(head, ',') == |head| && head[..|head|] == head && After(head, |head|) == None
  {
    hide IndexOf;
    assert head[..|head|] == head;
    IndexOfIs(head, ',', |head|);
  }

  lemma CutBefore(head: string, tail: string)
    requires ',' !in head
    ensures var s := head + ("," + tail);
            IndexOf(s, ',') == |head| && s[..|head|] == head && After(s, |head|) == Some(tail)
  {
    hide IndexOf;
    var s := head + ("," + tail);
    assert s[..|head|] == head && s[|head|] == ',' && s[|head| + 1..] == tail;
    IndexOfIs(s, ',', |head|);
  }

  lemma UnpackPrinted(oidOf: OidParser, time: string, f: Fields)
    requires ',' !in time
    requires f.reason.Some? ==> ',' !in f.reason.value
    requires f.other.Some? ==> f.reason.Some?
    ensures Unpack(oidOf, time + Suffix(f.reason) + Suffix(f.other)) ==
              UnpackFields(oidOf, time, f.reason, f.other)
  {
    hide IndexOf, UnpackFields, After;
    match f.reason
    case None =>
      assert time + "" + "" == time;
      CutAlone(time);
    case Some(reason) =>
      match f.other {
        case None =>
          assert time + ("," + reason) + "" == time + ("," + reason);
          CutAlone(reason);
          CutBefore(time, reason);
        case Some(other) =>
          var rest := reason + ("," + other);
          Regrouped(time, reason, other);
          CutBefore(reason, other);
          CutBefore(time, rest);
      }
  }

  lemma Regrouped(time: string, reason: string, other: string)
    ensures time + ("," + reason) + ("," + other) == time + ("," + (reason + ("," + other)))
  {
    Associate(time, "," + reason, "," + other);
    Associate(",", reason, "," + other);
  }

  lemma ReasonsHaveNo(i: nat, c: char)
    requires i < |CRL_REASONS| && !IsLetter(c)
    ensures c !in CRL_REASONS[i]
  {
    assert forall k :: 0 <= k < |CRL_REASONS[i]| ==> IsLetter(CRL_REASONS[i][k]);
  }

  predicate IsLetter(c: char) {
    'a' <= c <= 'z' || 'A' <= c <= 'Z'
  }

  /**
   * For every type and argument make_revocation_str accepts, unpack_revinfo
   * recovers the time, the RFC 5280 reason code, and the hold instruction or
   * compromise time; and it does so exactly while the clock prints a UTCTime.
   */
  lemma RoundTrip(oidOf: OidParser, now: Instant, kind: int, arg: string)
    requires now.Valid() && RevocationString(oidOf, now, kind, arg).Some?
    ensures var u := Unpack(oidOf, RevocationString(oidOf, now, kind, arg).value);
            && (u.ok <==> now.IsUtc())
            && (u.ok ==>
                  && u.time == Some(UtcText(now))
                  && MeansReason(kind, arg, u.reason)
                  && u.hold == (if kind == REV_HOLD then oidOf(arg) else None)
                  && u.invalidity ==
                       if kind == REV_KEY_COMPROMISE || kind == REV_CA_COMPROMISE then Some(arg) else None)
  {
    hide FindReason, Unpack, UtcTimeOk, GeneralizedTimeOk;
    var f := FieldsFor(oidOf, kind, arg).value;
    ClockTextHasNo(now, ',');
    ClockTextKinds(now);
    if kind == REV_CRL_REASON {
      var i := FindReason(arg, 0, 8);
      FindReasonMatches(arg, 0, 8);
      ReasonsHaveNo(i, ',');
      FindReasonFinds(CRL_REASONS[i], 0, i, 11);
      ReasonTableIsRfc(i);
      assert NamesReason(arg, if i == 7 then 8 else i);
    } else if kind == REV_HOLD {
      ReasonsHaveNo(8, ',');
      FindReasonFinds(CRL_REASONS[8], 0, 8, 11);
    } else if kind == REV_KEY_COMPROMISE {
      ReasonsHaveNo(9, ',');
      FindReasonFinds(CRL_REASONS[9], 0, 9, 11);
    } else if kind == REV_CA_COMPROMISE {
      ReasonsHaveNo(10, ',');
      FindReasonFinds(CRL_REASONS[10], 0, 10, 11);
    }
    UnpackPrinted(oidOf, ClockText(now), f);
  }

  /** One of the reasons that need an argument, with the one it needs. */
  ghost predicate NeedsObject(oidOf: OidParser, reason: string, arg: Option<string>) {
    EqualNoCase(reason, "holdInstruction") && arg.Some? && oidOf(arg.value).Some?
  }

  ghost predicate NeedsTime(reason: string, name: string, arg: Option<string>) {
    EqualNoCase(reason, name) && arg.Some? && GeneralizedTimeOk(arg.value)
  }

  /**
   * Exactly which time, reason and argument unpack_revinfo accepts, in any case
   * of letters, and what it delivers for each.
   */
  lemma UnpackFieldsIff(oidOf: OidParser, time: string, reason: Option<string>, arg: Option<string>)
    ensures var u := UnpackFields(oidOf, time, reason, arg);
            && u.time == (if UtcTimeOk(time) then Some(time) else None)
            && (u.ok <==>
                  && UtcTimeOk(time)
                  && (reason.Some? ==>
                        || (exists code :: NamesReason(reason.value, code))
                        || NeedsObject(oidOf, reason.value, arg)
                        || NeedsTime(reason.value, "keyTime", arg)
                        || NeedsTime(reason.value, "CAkeyTime", arg)))
            && (!u.ok || reason.None? ==> u.reason == NO_STATUS && u.hold == None && u.invalidity == None)
            && (u.ok && reason.Some? ==>
                  && (forall code :: NamesReason(reason.value, code) ==>
                        u == Unpacked(true, Some(time), code, None, None))
                  && (NeedsObject(oidOf, reason.value, arg) ==>
                        u == Unpacked(true, Some(time), 6, oidOf(arg.value), None))
                  && (NeedsTime(reason.value, "keyTime", arg) ==> u == Unpacked(true, Some(time), 1, None, arg))
                  && (NeedsTime(reason.value, "CAkeyTime", arg) ==> u == Unpacked(true, Some(time), 2, None, arg)))
  {
    if reason.Some? {
      hide UtcTimeOk, GeneralizedTimeOk, FindReason, EqualNoCase;
      var s := reason.value;
      var i := FindReason(s, 0, 11);
      FindReasonMatches(s, 0, 11);
      if i < 8 {
        ReasonTableIsRfc(i);
        assert NamesReason(s, if i == 7 then 8 else i);
      }
      forall code | NamesReason(s, code) ensures i < 8 && code == if i == 7 then 8 else i {
        var name :| ReasonCode(name) == Some(code) && EqualNoCase(s, name);
        var k := NamedReasonIsInTable(name);
        FindReasonFinds(s, 0, k, 11);
        ReasonTableIsRfc(k);
      }
      forall k | 8 <= k < 11 && EqualNoCase(s, CRL_REASONS[k]) ensures i == k {
        FindReasonFinds(s, 0, k, 11);
      }
      assert CRL_REASONS[8] == "holdInstruction" && CRL_REASONS[9] == "keyTime" && CRL_REASONS[10] == "CAkeyTime";
    }
  }

  /** A time that is delivered is a UTCTime. */
  lemma UnpackedTime(oidOf: OidParser, str: string)
    ensures Unpack(oidOf, str).time.Some? ==> UtcTimeOk(Unpack(oidOf, str).time.value)
  {
    hide UtcTimeOk, GeneralizedTimeOk, FindReason, IndexOf;
  }

  /** What is accepted has a time. */
  lemma UnpackedOk(oidOf: OidParser, str: string)
    ensures Unpack(oidOf, str).ok ==> Unpack(oidOf, str).time.Some?
  {
    hide UtcTimeOk, GeneralizedTimeOk, FindReason, IndexOf;
  }

  lemma PlainTimeUnpacked(oidOf: OidParser, time: string)
    requires UtcTimeOk(time) && ',' !in time
    ensures Unpack(oidOf, time) == Unpacked(true, Some(time), NO_STATUS, None, None)
  {
    hide UtcTimeOk, IndexOf;
    CutAlone(time);
  }

  /** A revocation without reason is its time alone, and is read back. */
  lemma PlainTextIsAccepted(oidOf: OidParser, now: Instant)
    requires now.IsUtc()
    ensures RevocationString(oidOf, now, REV_NONE, "") == Some(UtcText(now))
    ensures MakeRevoked(oidOf, UtcText(now)).Some?
  {
    hide Unpack;
    assert ClockText(now) + "" + "" == UtcText(now);
    RoundTrip(oidOf, now, REV_NONE, "");
  }

  /** From 2050 on the string is made with a GeneralizedTime, and is not read back. */
  lemma NotReadBackFrom2050(oidOf: OidParser)
    ensures var now := Instant(2050, 1, 1, 0, 0, 0);
            && RevocationString(oidOf, now, REV_NONE, "") == Some("20500101000000Z")
            && !Unpack(oidOf, "20500101000000Z").ok && MakeRevoked(oidOf, "20500101000000Z").None?
  {
    hide Unpack;
    var now := Instant(2050, 1, 1, 0, 0, 0);
    assert TwoDigits(20) == "20" && TwoDigits(50) == "50" && TwoDigits(1) == "01" && TwoDigits(0) == "00";
    assert ClockText(now) + "" + "" == "20500101000000Z";
    RoundTrip(oidOf, now, REV_NONE, "");
  }

  /** The code of an accepted revocation is determined by its type and argument. */
  lemma ReasonIsUnique(arg: string, c: int, d: int)
    requires NamesReason(arg, c) && NamesReason(arg, d)
    ensures c == d
  {
    var m :| ReasonCode(m) == Some(c) && EqualNoCase(arg, m);
    var n :| ReasonCode(n) == Some(d) && EqualNoCase(arg, n);
    var i := NamedReasonIsInTable(m);
    var j := NamedReasonIsInTable(n);
    FindReasonFinds(arg, 0, i, 8);
    FindReasonFinds(arg, 0, j, 8);
  }

  /** At most one of the two arguments is ever present, so the responder's else-branch loses nothing. */
  lemma HoldExcludesInvalidity(oidOf: OidParser, str: string)
    ensures var u := Unpack(oidOf, str);
            && (u.hold.None? || u.invalidity.None?)
            && (u.ok ==> u.time.Some?)
            && (u.reason == NO_STATUS ==> u.hold.None? && u.invalidity.None?)
  {
    hide IndexOf, UtcTimeOk, GeneralizedTimeOk, FindReason;
  }

  // ----- the buffers -----

  /** BUF_strlcpy into buf[at..at + size] */
  method StrLCpy(buf: array<char>, at: nat, src: string, size: nat)
    requires IsCString(src) && size > 0 && at + size <= buf.Length
    modifies buf
    ensures HasAt(buf[..], at, if |src| < size then src else src[..size - 1])
    ensures forall k :: 0 <= k < at ==> buf[k] == old(buf[k])
  {
    var k := 0;
    while k + 1 < size && k < |src|
      invariant k <= |src| && k < size
      invariant forall i :: 0 <= i < k ==> buf[at + i] == src[i]
      invariant forall i :: 0 <= i < at ==> buf[i] == old(buf[i])
    {
      buf[at + k] := src[k];
      k := k + 1;
    }
    buf[at + k] := NUL;
    assert k == if |src| < size then |src| else size - 1;
  }

  /** BUF_strlcat onto the string at the front of buf[..size] */
  method StrLCat(buf: array<char>, src: string, size: nat, ghost have: string)
    requires IsCString(src) && size <= buf.Length
    requires HasAt(buf[..], 0, have) && |have| < size
    modifies buf
    ensures HasAt(buf[..], 0, have + if |have| + |src| < size then src else src[..size - |have| - 1])
  {
    var end := 0;
    assert buf[0] == At(have, 0);
    while buf[end] != NUL
      invariant 0 <= end <= |have| && buf[end] == At(have, end)
      decreases |have| - end
    {
      end := end + 1;
      assert buf[end] == At(have, end);
    }
    ghost var tail := if |have| + |src| < size then src else src[..size - |have| - 1];
    assert forall k :: 0 <= k < |have| ==> buf[k] == At(have, k);
    StrLCpy(buf, end, src, size - end);
    forall k | 0 <= k <= |have + tail| ensures buf[0 + k] == At(have + tail, k) {
      if k >= |have| {
        assert buf[|have| + (k - |have|)] == At(tail, k - |have|);
      }
    }
  }

  /** The switch of make_revocation_str. */
  method RevocationFields(oidOf: OidParser, kind: int, arg: string) returns (f: Option<Fields>)
    ensures f == FieldsFor(oidOf, kind, arg)
  {
    if kind == REV_CRL_REASON {
      var i := 0;
      while i < 8
        invariant 0 <= i <= 8
        invariant FindReason(arg, 0, 8) == FindReason(arg, i, 8)
      {
        if EqualNoCase(arg, CRL_REASONS[i]) {
          return Some(Fields(Some(CRL_REASONS[i]), None));
        }
        i := i + 1;
      }
      f := None;
    } else if kind == REV_HOLD {
      if oidOf(arg).None? {
        return None;
      }
      f := Some(Fields(Some("holdInstruction"), Some(arg)));
    } else if kind == REV_KEY_COMPROMISE || kind == REV_CA_COMPROMISE {
      if !GeneralizedTimeOk(arg) {
        return None;
      }
      f := Some(Fields(Some(if kind == REV_KEY_COMPROMISE then "keyTime" else "CAkeyTime"), Some(arg)));
    } else {
      f := Some(Fields(None, None));
    }
  }

  /** Appends a comma and a field. */
  method AppendField(buf: array<char>, field: string, ghost have: string)
    requires IsCString(field) && HasAt(buf[..], 0, have)
    requires |have| + 1 + |field| < buf.Length
    modifies buf
    ensures HasAt(buf[..], 0, have + Suffix(Some(field)))
  {
    StrLCat(buf, ",", buf.Length, have);
    StrLCat(buf, field, buf.Length, have + ",");
    assert have + "," + field == have + ("," + field);
  }

  /** A new buffer for the time and the fields, filled by copying and appending. */
  method JoinFields(revtm: string, reason: Option<string>, other: Option<string>) returns (str: array<char>)
    requires IsCString(revtm)
    requires reason.Some? ==> IsCString(reason.value)
    requires other.Some? ==> IsCString(other.value)
    ensures fresh(str)
    ensures var text := revtm + Suffix(reason) + Suffix(other);
            HasAt(str[..], 0, text) && str.Length == |text| + 1
  {
    var i := |revtm| + 1;
    if reason.Some? {
      i := i + |reason.value| + 1;
    }
    if other.Some? {
      i := i + |other.value| + 1;
    }
    str := new char[i](_ => NUL);
    StrLCpy(str, 0, revtm, i);
    ghost var text := revtm + Suffix(reason);
    if reason.Some? {
      AppendField(str, reason.value, revtm);
    } else {
      assert text == revtm;
    }
    if other.Some? {
      AppendField(str, other.value, text);
    } else {
      assert text + Suffix(other) == text;
    }
  }

  /**
   * make_revocation_str. The buffer it allocates is filled to the last
   * character: nothing is truncated and nothing is left over.
   */
  method MakeRevocationStr(oidOf: OidParser, now: Instant, kind: int, arg: string) returns (str: array?<char>)
    requires now.Valid() && IsCString(arg)
    ensures var expected := RevocationString(oidOf, now, kind, arg);
            && (str == null <==> expected.None?)
            && (str != null ==>
                  && fresh(str)
                  && HasAt(str[..], 0, expected.value)
                  && str.Length == |expected.value| + 1)
  {
    var f := RevocationFields(oidOf, kind, arg);
    if f.None? {
      return null;
    }
    ClockTextHasNo(now, NUL);
    FieldsAreCStrings(oidOf, kind, arg);
    str := JoinFields(ClockText(now), f.value.reason, f.value.other);
  }

  lemma FieldsAreCStrings(oidOf: OidParser, kind: int, arg: string)
    requires IsCString(arg) && FieldsFor(oidOf, kind, arg).Some?
    ensures var f := FieldsFor(oidOf, kind, arg).value;
            && (f.reason.Some? ==> IsCString(f.reason.value))
            && (f.other.Some? ==> IsCString(f.other.value))
  {
    hide FindReason, GeneralizedTimeOk;
    if kind == REV_CRL_REASON {
      ReasonsHaveNo(FindReason(arg, 0, 8), NUL);
    }
  }

  /** Ends the string at `from` at its first comma; what followed starts at `next`. */
  method CutAtComma(buf: array<char>, from: nat, ghost s: string) returns (next: int)
    requires HasAt(buf[..], from, s)
    modifies buf
    ensures HasAt(buf[..], from, s[..IndexOf(s, ',')])
    ensures next == -1 <==> After(s, IndexOf(s, ',')).None?
    ensures next != -1 ==> next == from + IndexOf(s, ',') + 1 && HasAt(buf[..], next, After(s, IndexOf(s, ',')).value)
    ensures forall k :: 0 <= k < from ==> buf[k] == old(buf[k])
  {
    ghost var k := IndexOf(s, ',');
    var p := StrChr(buf, from, ',', s);
    next := -1;
    if p != -1 {
      buf[p] := NUL;
      next := p + 1;
      ghost var rest := s[k + 1..];
      forall i | 0 <= i <= |rest| ensures buf[next + i] == At(rest, i) {
        assert old(buf[from + (k + 1 + i)]) == At(s, k + 1 + i);
      }
    }
    forall i | 0 <= i <= k ensures buf[from + i] == At(s[..k], i) {
      assert old(buf[from + i]) == At(s, i);
    }
  }

  /** The part of unpack_revinfo after the string is cut. */
  method DecodeFields(oidOf: OidParser, rtime: string, reason: Option<string>, arg: Option<string>)
    returns (u: Unpacked)
    ensures u == UnpackFields(oidOf, rtime, reason, arg)
  {
    if !UtcTimeOk(rtime) {
      return Rejected(None);
    }
    var reasonCode, hold: Option<nat>, compTime: Option<string> := NO_STATUS, None, None;
    if reason.Some? {
      var i := 0;
      while i < |CRL_REASONS|
        invariant 0 <= i <= |CRL_REASONS| && reasonCode == NO_STATUS
        invariant FindReason(reason.value, 0, 11) == FindReason(reason.value, i, 11)
      {
        if EqualNoCase(reason.value, CRL_REASONS[i]) {
          reasonCode := i;
          break;
        }
        i := i + 1;
      }
      if reasonCode == NO_STATUS {
        return Rejected(Some(rtime));
      }
      if reasonCode == 7 {
        reasonCode := REMOVE_FROM_CRL;
      } else if reasonCode == 8 {
        if arg.None? || oidOf(arg.value).None? {
          return Rejected(Some(rtime));
        }
        reasonCode, hold := CERTIFICATE_HOLD, oidOf(arg.value);
      } else if reasonCode == 9 || reasonCode == 10 {
        if arg.None? || !GeneralizedTimeOk(arg.value) {
          return Rejected(Some(rtime));
        }
        compTime := arg;
        reasonCode := if reasonCode == 9 then KEY_COMPROMISE else CA_COMPROMISE;
      }
    }
    u := Unpacked(true, Some(rtime), reasonCode, hold, compTime);
  }

  /** unpack_revinfo: a copy of the string is cut in place at its first two commas. */
  method UnpackRevinfo(oidOf: OidParser, str: string) returns (u: Unpacked)
    requires IsCString(str)
    ensures u == Unpack(oidOf, str)
  {
    var tmp := new char[|str| + 1](_ => NUL);
    forall k | 0 <= k < |str| {
      tmp[k] := str[k];
    }
    assert HasAt(tmp[..], 0, str);
    ghost var k := IndexOf(str, ',');
    var reason: Option<string>, arg: Option<string> := None, None;
    var next := CutAtComma(tmp, 0, str);
    var rtime := ReadString(tmp, 0, str[..k]);
    if next != -1 {
      ghost var rest := After(str, k).value;
      var last := CutAtComma(tmp, next, rest);
      var text := ReadString(tmp, next, rest[..IndexOf(rest, ',')]);
      reason := Some(text);
      if last != -1 {
        text := ReadString(tmp, last, After(rest, IndexOf(rest, ',')).value);
        arg := Some(text);
      }
    }
    u := DecodeFields(oidOf, rtime, reason, arg);
  }
}
