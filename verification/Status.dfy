/**
 * The two readers of the database: the CRL that ca makes from its revoked rows
 * and the answers of the OCSP responder.
 */
module Status {
  import opened CStrings
  import opened Options
  import opened Times
  import opened RevInfo
  import opened CaModel
  import opened CaDatabase
  import Serial

  // ----- the CRL -----

  datatype CrlEntry = CrlEntry(serial: int, revoked: Revoked)

  /** The entries of the CRL, in row order; None when a revocation string is malformed. */
  function CrlEntries(oidOf: OidParser, rows: seq<Row>): Option<seq<CrlEntry>> {
    if rows == [] then Some([]) else
      var row := rows[|rows| - 1];
      match CrlEntries(oidOf, rows[..|rows| - 1])
      case None => None
      case Some(crl) =>
        if Kind(row) != 'R' then Some(crl) else
          match MakeRevoked(oidOf, row.revoked)
          case None => None
          case Some(revoked) => Some(crl + [CrlEntry(Serial.NumberOf(row.serial), revoked)])
  }

  lemma {:induction false} CrlPrefixFails(oidOf: OidParser, rows: seq<Row>, n: nat)
    requires n <= |rows| && CrlEntries(oidOf, rows[..n]).None?
    ensures CrlEntries(oidOf, rows).None?
    decreases |rows|
  {
    if n == |rows| {
      assert rows[..n] == rows;
    } else {
      var front := rows[..|rows| - 1];
      assert front[..n] == rows[..n];
      CrlPrefixFails(oidOf, front, n);
    }
  }

  lemma NoEntries(oidOf: OidParser)
    ensures CrlEntries(oidOf, []) == Some([])
  {
  }

  lemma NextEntry(oidOf: OidParser, rows: seq<Row>, row: Row)
    ensures CrlEntries(oidOf, rows).Some? ==>
              CrlEntries(oidOf, rows + [row]) ==
                if Kind(row) != 'R' then CrlEntries(oidOf, rows)
                else if MakeRevoked(oidOf, row.revoked).None? then None
                else Some(CrlEntries(oidOf, rows).value +
                          [CrlEntry(Serial.NumberOf(row.serial), MakeRevoked(oidOf, row.revoked).value)])
  {
    hide MakeRevoked, Serial.NumberOf;
    assert (rows + [row])[..|rows|] == rows;
  }

  /** The loop that fills the CRL. It has to be of version 2 once an entry has a reason. */
  method MakeCrl(oidOf: OidParser, db: CaDb) returns (crl: Option<seq<CrlEntry>>, v2: bool)
    requires db.Consistent()
    ensures crl == CrlEntries(oidOf, db.model.rows)
    ensures crl.Some? ==> (v2 <==> exists e <- crl.value :: e.revoked.reason.Some?)
  {
    hide MakeRevoked, Serial.NumberOf, CrlEntries;
    NoEntries(oidOf);
    var entries: seq<CrlEntry> := [];
    v2 := false;
    var i := 0;
    while i < |db.data|
      invariant 0 <= i <= |db.data|
      invariant CrlEntries(oidOf, db.model.rows[..i]) == Some(entries)
      invariant v2 <==> exists e <- entries :: e.revoked.reason.Some?
    {
      var pp := db.data[i];
      assert pp.View() == db.model.rows[i];
      assert db.model.rows[..i + 1] == db.model.rows[..i] + [pp.View()];
      NextEntry(oidOf, db.model.rows[..i], pp.View());
      if At(pp.kind, 0) == 'R' {
        var r := MakeRevoked(oidOf, pp.revoked);
        if r.None? {
          CrlPrefixFails(oidOf, db.model.rows, i + 1);
          return None, v2;
        }
        if r.value.reason.Some? {
          v2 := true;
        }
        entries := entries + [CrlEntry(Serial.NumberOf(pp.serial), r.value)];
        assert entries[|entries| - 1].revoked == r.value;
      }
      i := i + 1;
    }
    assert db.model.rows[..i] == db.model.rows;
    crl := Some(entries);
  }

  // ----- the OCSP responder -----

  datatype CertId = CertId(digestKnown: bool, ourIssuer: bool, serial: nat)

  datatype CertStatus =
    | Good
    | Unknown
    | RevokedAt(time: string, reason: Option<int>)

  datatype Extension = NoExtension | InvalidityDate(time: string) | HoldInstruction(oid: nat)

  datatype Single = Single(id: CertId, status: CertStatus, extension: Extension)

  datatype Response = MalformedRequest | InternalError | Successful(singles: seq<Single>)

  /** ASN1_TIME_to_generalizedtime on a UTCTime. */
  function ToGeneralized(time: string): string {
    (if At(time, 0) >= '5' then "19" else "20") + time
  }

  /** The answer for a revoked row; a time that does not parse leaves no answer at all. */
  function RevokedAnswer(oidOf: OidParser, id: CertId, str: string): Option<Single> {
    var u := Unpack(oidOf, str);
    if u.time.None? then None else
      Some(Single(id,
                  RevokedAt(ToGeneralized(u.time.value), if u.reason == NO_STATUS then None else Some(u.reason)),
                  if u.invalidity.Some? then InvalidityDate(u.invalidity.value)
                  else if u.hold.Some? then HoldInstruction(u.hold.value)
                  else NoExtension))
  }

  /** The single response for one id, if the responder makes one. */
  function Answer(oidOf: OidParser, db: Db, id: CertId): Option<Single>
    requires Indexed(db)
  {
    if !id.ourIssuer then Some(Single(id, Unknown, NoExtension)) else
      match LookupSerial(db, Serial.Text(id.serial))
      case None => Some(Single(id, Unknown, NoExtension))
      case Some(i) =>
        if Kind(db.rows[i]) == 'V' then Some(Single(id, Good, NoExtension))
        else if Kind(db.rows[i]) == 'R' then RevokedAnswer(oidOf, id, db.rows[i].revoked)
        else None
  }

  function Answers(oidOf: OidParser, db: Db, ids: seq<CertId>): seq<Single>
    requires Indexed(db)
  {
    if ids == [] then [] else
      var front := Answers(oidOf, db, ids[..|ids| - 1]);
      match Answer(oidOf, db, ids[|ids| - 1])
      case None => front
      case Some(single) => front + [single]
  }

  /** make_ocsp_response: one pass over the requested ids, given up at the first unknown digest. */
  method MakeOcspResponse(oidOf: OidParser, db: CaDb, ids: seq<CertId>) returns (resp: Response)
    requires db.Valid()
    ensures resp ==
              if ids == [] then MalformedRequest
              else if exists id <- ids :: !id.digestKnown then InternalError
              else Successful(Answers(oidOf, db.model, ids))
  {
    if |ids| == 0 {
      return MalformedRequest;
    }
    var bs: seq<Single> := [];
    var i := 0;
    while i < |ids|
      invariant 0 <= i <= |ids|
      invariant forall id <- ids[..i] :: id.digestKnown
      invariant bs == Answers(oidOf, db.model, ids[..i])
    {
      var cid := ids[i];
      if !cid.digestKnown {
        return InternalError;
      }
      assert ids[..i + 1][..i] == ids[..i];
      var single := AnswerOne(oidOf, db, cid);
      if single.Some? {
        bs := bs + [single.value];
      }
      i := i + 1;
    }
    assert ids[..i] == ids;
    resp := Successful(bs);
  }

  /** The body of the responder's loop, after the digest is known. */
  method AnswerOne(oidOf: OidParser, db: CaDb, cid: CertId) returns (single: Option<Single>)
    requires db.Valid()
    ensures single == Answer(oidOf, db.model, cid)
  {
    if !cid.ourIssuer {
      return Some(Single(cid, Unknown, NoExtension));
    }
    var inf := LookupSerialRow(db, cid.serial);
    if inf == null {
      single := Some(Single(cid, Unknown, NoExtension));
    } else if At(inf.kind, 0) == 'V' {
      single := Some(Single(cid, Good, NoExtension));
    } else if At(inf.kind, 0) == 'R' {
      var u := Unpack(oidOf, inf.revoked);
      single := None;
      if u.time.Some? {
        var status := RevokedAt(ToGeneralized(u.time.value), if u.reason == NO_STATUS then None else Some(u.reason));
        var extension := NoExtension;
        if u.invalidity.Some? {
          extension := InvalidityDate(u.invalidity.value);
        } else if u.hold.Some? {
          extension := HoldInstruction(u.hold.value);
        }
        single := Some(Single(cid, status, extension));
      }
    } else {
      single := None;
    }
  }

  /** lookup_serial: the row object the serial index holds for a number. */
  method LookupSerialRow(db: CaDb, serial: nat) returns (row: CaRow?)
    requires db.Valid()
    ensures var found := LookupSerial(db.model, Serial.Text(serial));
            && (row == null <==> found.None?)
            && (row != null ==> row == db.data[found.value] && row.View() == db.model.rows[found.value])
  {
    var found := db.GetBySerial(Serial.Text(serial));
    if found.None? {
      return null;
    }
    assert db.data[found.value].View() == db.model.rows[found.value];
    row := db.data[found.value];
  }

  // ----- the two readers agree -----

  /**
   * The GeneralizedTime says the date, time of day and zone that the UTCTime
   * does, and is well formed exactly unless the UTCTime has 12 characters, that
   * is, no zone.
   */
  ghost predicate SameTime(utc: string, generalized: string) {
    && GeneralizedWritten(generalized) == UtcWritten(utc)
    && Zone(generalized) == Zone(utc)
    && (GeneralizedTimeOk(generalized) <==> |utc| != 12)
  }

  /** What the CRL says about a serial number, in the terms of the responder. */
  ghost predicate SameRevocation(entry: CrlEntry, single: Single) {
    && single.status == RevokedAt(ToGeneralized(entry.revoked.time), entry.revoked.reason)
    && SameTime(entry.revoked.time, single.status.time)
    && (single.extension.InvalidityDate? <==> entry.revoked.invalidity.Some?)
    && (single.extension.InvalidityDate? ==> single.extension.time == entry.revoked.invalidity.value)
    && (single.extension.HoldInstruction? <==> entry.revoked.hold.Some?)
    && (single.extension.HoldInstruction? ==> single.extension.oid == entry.revoked.hold.value)
  }

  lemma RevokedAnswerMatches(oidOf: OidParser, id: CertId, row: Row)
    requires MakeRevoked(oidOf, row.revoked).Some?
    ensures var a := RevokedAnswer(oidOf, id, row.revoked);
            && a.Some? && a.value.status.RevokedAt?
            && forall n :: SameRevocation(CrlEntry(n, MakeRevoked(oidOf, row.revoked).value), a.value)
  {
    hide SameTime, UtcTimeOk, Unpack, ToGeneralized;
    HoldExcludesInvalidity(oidOf, row.revoked);
    UnpackedTime(oidOf, row.revoked);
    SameInstant(MakeRevoked(oidOf, row.revoked).value.time);
  }

  ghost predicate RevokedHere(oidOf: OidParser, rows: seq<Row>, e: CrlEntry, i: int) {
    0 <= i < |rows| && Kind(rows[i]) == 'R' && Some(e.revoked) == MakeRevoked(oidOf, rows[i].revoked) &&
    e.serial == Serial.NumberOf(rows[i].serial)
  }

  /** On accepted rows the CRL is made, and its entries are exactly the revoked rows. */
  lemma {:induction false} CrlListsRevokedRows(oidOf: OidParser, rows: seq<Row>)
    requires Accepted(oidOf, rows)
    ensures CrlEntries(oidOf, rows).Some?
    ensures forall e <- CrlEntries(oidOf, rows).value :: exists i :: RevokedHere(oidOf, rows, e, i)
    ensures forall i: nat :: i < |rows| && Kind(rows[i]) == 'R' ==>
              exists e <- CrlEntries(oidOf, rows).value :: RevokedHere(oidOf, rows, e, i)
  {
    hide MakeRevoked, Serial.NumberOf, TimeOk, SerialOk;
    if rows != [] {
      var n := |rows| - 1;
      var front := rows[..n];
      assert forall i :: 0 <= i < n ==> front[i] == rows[i];
      CrlListsRevokedRows(oidOf, front);
      var before, all := CrlEntries(oidOf, front).value, CrlEntries(oidOf, rows).value;
      forall e | e in all ensures exists i :: RevokedHere(oidOf, rows, e, i) {
        if e in before {
          var i :| RevokedHere(oidOf, front, e, i);
          assert RevokedHere(oidOf, rows, e, i);
        } else {
          assert RevokedHere(oidOf, rows, e, n);
        }
      }
      forall i: nat | i < |rows| && Kind(rows[i]) == 'R' ensures exists e <- all :: RevokedHere(oidOf, rows, e, i) {
        if i < n {
          assert Kind(front[i]) == 'R';
          var e :| e in before && RevokedHere(oidOf, front, e, i);
          assert e in all && RevokedHere(oidOf, rows, e, i);
        } else {
          var e := all[|all| - 1];
          assert e in all && RevokedHere(oidOf, rows, e, i);
        }
      }
    }
  }

  /** What the responder says about a number that row `i` holds. */
  lemma AnswerForRow(oidOf: OidParser, db: Db, id: CertId, i: nat)
    requires Indexed(db) && id.ourIssuer && i < |db.rows| && HasNumber(db.rows[i], id.serial)
    ensures Answer(oidOf, db, id) ==
              if Kind(db.rows[i]) == 'V' then Some(Single(id, Good, NoExtension))
              else if Kind(db.rows[i]) == 'R' then RevokedAnswer(oidOf, id, db.rows[i].revoked)
              else None
    ensures forall j :: 0 <= j < |db.rows| && HasNumber(db.rows[j], id.serial) ==> j == i
  {
    Serial.TextRoundTrip(id.serial);
    LookupIsNumeric(db, Serial.Text(id.serial));
  }

  lemma AnswerForNoRow(oidOf: OidParser, db: Db, id: CertId)
    requires Indexed(db) && id.ourIssuer
    requires forall i :: 0 <= i < |db.rows| ==> !HasNumber(db.rows[i], id.serial)
    ensures Answer(oidOf, db, id) == Some(Single(id, Unknown, NoExtension))
  {
    Serial.TextRoundTrip(id.serial);
    LookupIsNumeric(db, Serial.Text(id.serial));
  }

  /** A row of the kind shows the number in uppercase digits. */
  ghost predicate KindFor(rows: seq<Row>, kind: char, n: nat, i: int) {
    0 <= i < |rows| && Kind(rows[i]) == kind && HasNumber(rows[i], n)
  }

  /**
   * What the responder says, in full. Good: a certificate of ours with a valid
   * row. Unknown: not one of ours, or one without a row. Revoked: one of ours
   * with a revoked row whose time can be read. Nothing: one of ours with any
   * other row.
   */
  lemma AnswerIff(oidOf: OidParser, db: Db, id: CertId)
    requires Indexed(db)
    ensures var a := Answer(oidOf, db, id);
            && (a.Some? ==> a.value.id == id)
            && (a.Some? && !a.value.status.RevokedAt? ==> a.value.extension == NoExtension)
            && (a.Some? && a.value.status.Good? <==> id.ourIssuer && exists i :: KindFor(db.rows, 'V', id.serial, i))
            && (a.Some? && a.value.status.Unknown? <==>
                  !id.ourIssuer || forall i :: 0 <= i < |db.rows| ==> !HasNumber(db.rows[i], id.serial))
            && (SaysRevoked(a) <==>
                  && id.ourIssuer
                  && exists i ::
                       KindFor(db.rows, 'R', id.serial, i) && Unpack(oidOf, db.rows[i].revoked).time.Some?)
  {
    hide Unpack, LookupSerial, HasNumber, Indexed, ToGeneralized;
    if id.ourIssuer {
      if i :| 0 <= i < |db.rows| && HasNumber(db.rows[i], id.serial) {
        hide Answer;
        AnswerForRow(oidOf, db, id, i);
        assert KindFor(db.rows, Kind(db.rows[i]), id.serial, i);
      } else {
        AnswerForNoRow(oidOf, db, id);
      }
    }
  }

  /** The response has exactly the ids with an answer, in the order of the request. */
  lemma {:induction false} AnswersInOrder(oidOf: OidParser, db: Db, ids: seq<CertId>) returns (at: seq<nat>)
    requires Indexed(db)
    ensures |at| == |Answers(oidOf, db, ids)|
    ensures forall k :: 0 <= k < |at| ==>
              at[k] < |ids| && Answer(oidOf, db, ids[at[k]]) == Some(Answers(oidOf, db, ids)[k])
    ensures forall j, k :: 0 <= j < k < |at| ==> at[j] < at[k]
    ensures forall j :: 0 <= j < |ids| && Answer(oidOf, db, ids[j]).Some? ==> j in at
    decreases |ids|
  {
    hide Answer, Indexed;
    at := [];
    if ids != [] {
      var n := |ids| - 1;
      var front := ids[..n];
      at := AnswersInOrder(oidOf, db, front);
      assert forall j :: 0 <= j < n ==> front[j] == ids[j];
      if Answer(oidOf, db, ids[n]).Some? {
        at := at + [n];
      }
    }
  }

  /** Row `i` is revoked and the CRL has it under `n`. */
  ghost predicate RevokedUnder(rows: seq<Row>, n: int, i: int) {
    0 <= i < |rows| && Kind(rows[i]) == 'R' && Serial.NumberOf(rows[i].serial) == n
  }

  /** Rows numbered `n` show it in uppercase digits, as ca writes them. */
  ghost predicate UppercaseFor(rows: seq<Row>, n: int) {
    forall i :: 0 <= i < |rows| && Serial.NumberOf(rows[i].serial) == n ==> Serial.IsUpperHex(rows[i].serial)
  }

  ghost predicate OnCrl(crl: seq<CrlEntry>, n: int) {
    exists e <- crl :: e.serial == n
  }

  predicate SaysRevoked(a: Option<Single>) {
    a.Some? && a.value.status.RevokedAt?
  }

  /**
   * Over any database that loads. What the responder calls revoked is on the
   * CRL with the same reason and hold or invalidity data, and with the same time,
   * well formed unless it has no zone there. The two agree on a number exactly
   * unless the only revoked rows for it have lowercase digits or a sign. The
   * responder says good exactly for a valid row and unknown exactly for no row
   * with the number in uppercase digits.
   */
  lemma CrlAgreesWithResponder(oidOf: OidParser, db: Db, id: CertId)
    requires Indexed(db) && Accepted(oidOf, db.rows) && id.ourIssuer
    ensures CrlEntries(oidOf, db.rows).Some?
    ensures var crl, a := CrlEntries(oidOf, db.rows).value, Answer(oidOf, db, id);
            && (SaysRevoked(a) ==> exists e <- crl :: e.serial == id.serial && SameRevocation(e, a.value))
            && ((OnCrl(crl, id.serial) <==> SaysRevoked(a)) <==>
                  ((exists i :: RevokedUnder(db.rows, id.serial, i)) ==>
                     exists i :: RevokedUnder(db.rows, id.serial, i) && Serial.IsUpperHex(db.rows[i].serial)))
            && (UppercaseFor(db.rows, id.serial) ==>
                  forall e <- crl :: e.serial == id.serial ==> a.Some? && SameRevocation(e, a.value))
    ensures Answer(oidOf, db, id) == Some(Single(id, Good, NoExtension)) <==>
              exists i :: 0 <= i < |db.rows| && Kind(db.rows[i]) == 'V' && HasNumber(db.rows[i], id.serial)
    ensures Answer(oidOf, db, id) == Some(Single(id, Unknown, NoExtension)) <==>
              forall i :: 0 <= i < |db.rows| ==> !HasNumber(db.rows[i], id.serial)
  {
    hide MakeRevoked, Serial.NumberOf, TimeOk, SerialOk, Answer, RevokedAnswer, CrlEntries, SameRevocation,
      LookupSerial, Indexed;
    var rows, n := db.rows, id.serial;
    CrlListsRevokedRows(oidOf, rows);
    var crl := CrlEntries(oidOf, rows).value;
    CrlHasIff(oidOf, rows, n);
    if i :| 0 <= i < |rows| && HasNumber(rows[i], n) {
      AnswerForRow(oidOf, db, id, i);
      Serial.UpperNumberOf(rows[i].serial);
      if Kind(rows[i]) == 'R' {
        RevokedAnswerMatches(oidOf, id, rows[i]);
        var e :| e in crl && RevokedHere(oidOf, rows, e, i);
        assert e.serial == n && RevokedUnder(rows, n, i);
      }
    } else {
      AnswerForNoRow(oidOf, db, id);
    }
    forall i | RevokedUnder(rows, n, i) && Serial.IsUpperHex(rows[i].serial)
      ensures HasNumber(rows[i], n) && SaysRevoked(Answer(oidOf, db, id))
    {
      Serial.UpperNumberOf(rows[i].serial);
      AnswerForRow(oidOf, db, id, i);
      RevokedAnswerMatches(oidOf, id, rows[i]);
    }
    if UppercaseFor(rows, n) {
      forall e | e in crl && e.serial == n
        ensures Answer(oidOf, db, id).Some? && SameRevocation(e, Answer(oidOf, db, id).value)
      {
        var i :| RevokedHere(oidOf, rows, e, i);
        Serial.UpperNumberOf(rows[i].serial);
        AnswerForRow(oidOf, db, id, i);
        RevokedAnswerMatches(oidOf, id, rows[i]);
      }
    }
  }

  lemma CrlHasIff(oidOf: OidParser, rows: seq<Row>, n: int)
    requires Accepted(oidOf, rows)
    ensures CrlEntries(oidOf, rows).Some?
    ensures OnCrl(CrlEntries(oidOf, rows).value, n) <==> exists i :: RevokedUnder(rows, n, i)
  {
    hide MakeRevoked, Serial.NumberOf, LoaderAccepts, CrlEntries;
    CrlListsRevokedRows(oidOf, rows);
    var crl := CrlEntries(oidOf, rows).value;
    if e :| e in crl && e.serial == n {
      var i :| RevokedHere(oidOf, rows, e, i);
      assert RevokedUnder(rows, n, i);
    }
    if i :| RevokedUnder(rows, n, i) {
      var e :| e in crl && RevokedHere(oidOf, rows, e, i);
      assert e.serial == n;
    }
  }

  /**
   * Where the two disagree: a revoked row with serial 0a loads, puts number 10
   * on the CRL, and leaves the responder saying it does not know number 10.
   */
  lemma LowercaseDisagrees(oidOf: OidParser, unique: bool)
    ensures var rows := [ExampleRow("R", UtcText(FIRST_UTC), "0a")];
            && Load(oidOf, rows, unique).Some?
            && CrlEntries(oidOf, rows).Some? && OnCrl(CrlEntries(oidOf, rows).value, 10)
            && var db, id := Load(oidOf, rows, unique).value, CertId(true, true, 10);
            Indexed(db) && Answer(oidOf, db, id) == Some(Single(id, Unknown, NoExtension))
  {
    hide MakeRevoked, LoaderAccepts, CrlEntries, Answer, UtcText, Load, Indexed, Serial.NumberOf, Serial.IsUpperHex;
    var row := ExampleRow("R", UtcText(FIRST_UTC), "0a");
    var rows := [row];
    PlainTextIsAccepted(oidOf, FIRST_UTC);
    ExampleRowLoads(oidOf, "R", UtcText(FIRST_UTC), "0a");
    SingleRowLoads(oidOf, row, unique);
    TenInDigits();
    CrlHasIff(oidOf, rows, 10);
    assert RevokedUnder(rows, 10, 0);
    assert !HasNumber(rows[0], 10);
    AnswerForNoRow(oidOf, Load(oidOf, rows, unique).value, CertId(true, true, 10));
  }

  /**
   * A time without zone loads, and the responder passes it on: revoked at
   * 100101000000, the certificate is answered with a time that is no
   * GeneralizedTime.
   */
  lemma ZonelessTimeIsAnswered(oidOf: OidParser, unique: bool)
    ensures var rows, id := [ExampleRow("R", "100101000000", "0A")], CertId(true, true, 10);
            && Load(oidOf, rows, unique).Some?
            && var db := Load(oidOf, rows, unique).value;
            && Indexed(db)
            && Answer(oidOf, db, id) == Some(Single(id, RevokedAt("20100101000000", None), NoExtension))
            && !GeneralizedTimeOk("20100101000000")
  {
    hide LoaderAccepts, Load, Indexed, Answer, UtcTimeOk, GeneralizedTimeOk, Serial.IsUpperHex, Serial.Value,
      Serial.NumberOf, Unpack, ToGeneralized;
    var time := "100101000000";
    var row := ExampleRow("R", time, "0A");
    TwelveCharacters();
    PlainTimeUnpacked(oidOf, time);
    ExampleRowLoads(oidOf, "R", time, "0A");
    SingleRowLoads(oidOf, row, unique);
    TenInDigits();
    Serial.UpperNumberOf("0A");
    AnswerForRow(oidOf, Load(oidOf, [row], unique).value, CertId(true, true, 10), 0);
    GeneralizedIffZone(time);
  }

  lemma TwelveCharacters()
    ensures UtcTimeOk("100101000000") && ToGeneralized("100101000000") == "20100101000000" && ',' !in "100101000000"
  {
    var s := "100101000000";
    hide FieldsEnd;
    FieldsThere(s, 2);
  }

  // ----- how often the CRL names a number -----

  function Listed(crl: seq<CrlEntry>, n: int): nat {
    if crl == [] then 0
    else Listed(crl[..|crl| - 1], n) + if crl[|crl| - 1].serial == n then 1 else 0
  }

  ghost function RevokedRows(rows: seq<Row>, n: int): set<nat> {
    set i: nat | i < |rows| && RevokedUnder(rows, n, i)
  }

  /** The CRL names a number as often as there are revoked rows for it. */
  lemma {:induction false} CrlListsEachRow(oidOf: OidParser, rows: seq<Row>, n: int)
    requires CrlEntries(oidOf, rows).Some?
    ensures Listed(CrlEntries(oidOf, rows).value, n) == |RevokedRows(rows, n)|
  {
    if rows == [] {
      assert RevokedRows(rows, n) == {};
    } else {
      hide MakeRevoked, Serial.NumberOf, CrlEntries, Listed, RevokedRows;
      var front, last := rows[..|rows| - 1], rows[|rows| - 1];
      assert rows == front + [last];
      CrlFrontMade(oidOf, front, last);
      CrlListsEachRow(oidOf, front, n);
      NextEntry(oidOf, front, last);
      NextRevokedRow(front, last, n);
      if Kind(last) == 'R' {
        ListedNext(CrlEntries(oidOf, front).value,
                   CrlEntry(Serial.NumberOf(last.serial), MakeRevoked(oidOf, last.revoked).value), n);
      }
    }
  }

  lemma CrlFrontMade(oidOf: OidParser, rows: seq<Row>, row: Row)
    requires CrlEntries(oidOf, rows + [row]).Some?
    ensures CrlEntries(oidOf, rows).Some?
    ensures Kind(row) == 'R' ==> MakeRevoked(oidOf, row.revoked).Some?
  {
    hide MakeRevoked;
    assert (rows + [row])[..|rows|] == rows;
  }

  lemma ListedNext(crl: seq<CrlEntry>, e: CrlEntry, n: int)
    ensures Listed(crl + [e], n) == Listed(crl, n) + if e.serial == n then 1 else 0
  {
    assert (crl + [e])[..|crl|] == crl;
  }

  lemma NextRevokedRow(rows: seq<Row>, row: Row, n: int)
    ensures var counts := Kind(row) == 'R' && Serial.NumberOf(row.serial) == n;
            |RevokedRows(rows + [row], n)| == |RevokedRows(rows, n)| + if counts then 1 else 0
  {
    hide Serial.NumberOf, Kind;
    var all, last := rows + [row], |rows|;
    assert all[last] == row;
    assert forall i :: 0 <= i < last ==> all[i] == rows[i];
    assert RevokedRows(all, n) == RevokedRows(rows, n) + if RevokedUnder(all, n, last) then {last} else {};
  }

  /** So it names a number at most once, unless rows for it have lowercase digits or a sign. */
  lemma CrlNamesOnce(oidOf: OidParser, db: Db, n: int)
    requires Indexed(db) && CrlEntries(oidOf, db.rows).Some? && UppercaseFor(db.rows, n)
    ensures Listed(CrlEntries(oidOf, db.rows).value, n) <= 1
  {
    hide MakeRevoked, CrlEntries, Indexed, Serial.NumberOf;
    CrlListsEachRow(oidOf, db.rows, n);
    var revoked := RevokedRows(db.rows, n);
    if i :| i in revoked {
      forall j | j in revoked ensures j == i {
        Serial.UpperNumberOf(db.rows[i].serial);
        Serial.UpperNumberOf(db.rows[j].serial);
        Serial.TextRoundTrip(n);
        LookupIsNumeric(db, Serial.Text(n));
      }
      assert revoked == {i};
    }
  }

  /** Both readers report the same instant, whatever the shape of the UTCTime; but one without zone stays without. */
  lemma SameInstant(time: string)
    requires UtcTimeOk(time)
    ensures SameTime(time, ToGeneralized(time))
  {
    hide UtcTimeOk, GeneralizedTimeOk, Number, Zone;
    CenturyFields(time);
    GeneralizedIffZone(time);
    CenturyZone(time);
  }

  /** The digits after the century are those before it was put there. */
  lemma CenturyFields(time: string)
    requires UtcTimeOk(time)
    ensures GeneralizedWritten(ToGeneralized(time)) == UtcWritten(time)
  {
    hide FieldOk, Number, ZoneEnd;
    UtcTimeFields(time);
    FieldRange(time, 0, 0, 99);
    var s := ToGeneralized(time);
    assert forall i :: 0 <= i ==> At(s, i + 2) == At(time, i);
    ShiftedNumber(time, s, 0);
    ShiftedNumber(time, s, 2);
    ShiftedNumber(time, s, 4);
    ShiftedNumber(time, s, 6);
    ShiftedNumber(time, s, 8);
    ShiftedNumber(time, s, 10);
    CenturyNumber(time);
  }

  lemma ShiftedNumber(time: string, s: string, o: nat)
    requires forall i :: 0 <= i ==> At(s, i + 2) == At(time, i)
    ensures Number(s, o + 2) == Number(time, o)
    ensures forall lo, hi :: FieldOk(s, o + 2, lo, hi) <==> FieldOk(time, o, lo, hi)
  {
    assert At(s, o + 2) == At(time, o) && At(s, (o + 1) + 2) == At(time, o + 1);
  }

  lemma CenturyNumber(time: string)
    requires |time| >= 2 && IsDigit(time[0]) && IsDigit(time[1])
    ensures 100 * Number(ToGeneralized(time), 0) + Number(time, 0) == Pivot(Number(time, 0))
  {
  }

  lemma CenturyZone(time: string)
    requires UtcTimeOk(time)
    ensures Zone(ToGeneralized(time)) == Zone(time)
  {
    hide UtcTimeOk, Number;
    assert |time| >= 11 by { UtcLength(time); }
    var s := ToGeneralized(time);
    assert forall i :: 0 <= i ==> At(s, i + 2) == At(time, i);
    ShiftedNumber(time, s, |time| - 4);
    ShiftedNumber(time, s, |time| - 2);
    assert s[|s| - 5] == time[|time| - 5];
  }

  lemma UtcLength(time: string)
    requires UtcTimeOk(time)
    ensures |time| >= 11
  {
  }

  lemma GeneralizedIffZone(time: string)
    requires UtcTimeOk(time)
    ensures GeneralizedTimeOk(ToGeneralized(time)) <==> |time| != 12
  {
    hide FieldOk, Number;
    UtcTimeFields(time);
    var s := ToGeneralized(time);
    assert forall i :: 0 <= i ==> At(s, i + 2) == At(time, i);
    ShiftedNumber(time, s, 0);
    ShiftedNumber(time, s, 2);
    ShiftedNumber(time, s, 4);
    ShiftedNumber(time, s, 6);
    ShiftedNumber(time, s, 8);
    ShiftedNumber(time, s, 10);
    CenturyOk(time);
    assert At(s, 12) == At(time, 10) && At(s, 14) == At(time, 12);
    FieldsThere(s, 4);
    var o := if StartsZone(At(time, 10)) then 10 else 12;
    ShiftedZone(time, s, o);
    hide FieldsEnd;
    assert FieldsEnd(s, 4, 0) == Some(o + 2);
  }

  lemma ShiftedZone(time: string, s: string, o: nat)
    requires |s| == |time| + 2 && forall i :: 0 <= i ==> At(s, i + 2) == At(time, i)
    requires ZoneEnd(time, o) == Some(|time|)
    ensures ZoneEnd(s, o + 2) == Some(|s|)
  {
    hide FieldOk;
    ShiftedNumber(time, s, o + 1);
    ShiftedNumber(time, s, o + 3);
    assert At(s, o + 2) == At(time, o);
  }

  lemma CenturyOk(time: string)
    requires |time| >= 2
    ensures FieldOk(ToGeneralized(time), 0, 0, 99)
  {
  }
}
