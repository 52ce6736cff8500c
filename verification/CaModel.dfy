/**
 * The certificate database as a value: its rows, its two lookup indexes, and the
 * steps that ca takes on them. A row is identified by its position, which never
 * changes since rows are only ever appended.
 */
module CaModel {
  import opened CStrings
  import opened Options
  import opened Times
  import opened Expiry
  import opened RevInfo
  import Serial

  /** The six text fields of a row; a null field is the empty text it is written as. */
  datatype Row = Row(kind: string, expiry: string, revoked: string, serial: string, file: string, name: string)

  /**
   * `bySerial` and `byName` map an index key to the row the index holds for it.
   * The name index is kept only under unique_subject.
   */
  datatype Db = Db(rows: seq<Row>, unique: bool, bySerial: map<string, nat>, byName: map<string, nat>)

  /** The character that says whether a row is valid, expired or revoked. */
  function Kind(row: Row): char {
    At(row.kind, 0)
  }

  // ----- loading -----

  /** The loader's test of a serial number: an even number of hex digits, at least two, after a sign. */
  predicate SerialOk(serial: string) {
    var digits := if serial != "" && serial[0] == '-' then serial[1..] else serial;
    |digits| % 2 == 0 && |digits| >= 2 && Serial.IsHex(digits)
  }

  predicate LoaderAccepts(oidOf: OidParser, row: Row) {
    && (Kind(row) != 'R' ==> row.revoked == "")
    && (Kind(row) == 'R' ==> MakeRevoked(oidOf, row.revoked).Some?)
    && TimeOk(row.expiry)
    && SerialOk(row.serial)
  }

  /** TXT_DB_create_index on the serial number. */
  function SerialIndex(rows: seq<Row>): Option<map<string, nat>> {
    if rows == [] then Some(map[]) else
      var n := |rows| - 1;
      match SerialIndex(rows[..n])
      case None => None
      case Some(m) => if Serial.Key(rows[n].serial) in m then None else Some(m[Serial.Key(rows[n].serial) := n])
  }

  /** TXT_DB_create_index on the name, which only V rows qualify for. */
  function NameIndex(rows: seq<Row>): Option<map<string, nat>> {
    if rows == [] then Some(map[]) else
      var n := |rows| - 1;
      match NameIndex(rows[..n])
      case None => None
      case Some(m) =>
        if Kind(rows[n]) != 'V' then Some(m)
        else if rows[n].name in m then None
        else Some(m[rows[n].name := n])
  }

  /** index_index */
  function Index(rows: seq<Row>, unique: bool): Option<Db> {
    match SerialIndex(rows)
    case None => None
    case Some(s) =>
      if !unique then Some(Db(rows, unique, s, map[])) else
        match NameIndex(rows)
        case None => None
        case Some(n) => Some(Db(rows, unique, s, n))
  }

  /** Reading the database: every row is checked, then the indexes are built. */
  function Load(oidOf: OidParser, rows: seq<Row>, unique: bool): Option<Db> {
    if forall i :: 0 <= i < |rows| ==> LoaderAccepts(oidOf, rows[i]) then Index(rows, unique) else None
  }

  // ----- what the indexes must hold -----

  ghost predicate SerialIndexExact(rows: seq<Row>, m: map<string, nat>) {
    && (forall k :: k in m ==> m[k] < |rows| && Serial.Key(rows[m[k]].serial) == k)
    && (forall i :: 0 <= i < |rows| ==> Serial.Key(rows[i].serial) in m && m[Serial.Key(rows[i].serial)] == i)
  }

  /**
   * Every V row is found under its name. Entries for rows that have since been
   * revoked or have expired may remain.
   */
  ghost predicate NameIndexCovers(rows: seq<Row>, m: map<string, nat>) {
    && (forall k :: k in m ==> m[k] < |rows| && rows[m[k]].name == k)
    && (forall i :: 0 <= i < |rows| && Kind(rows[i]) == 'V' ==> rows[i].name in m && m[rows[i].name] == i)
  }

  ghost predicate Indexed(db: Db) {
    && SerialIndexExact(db.rows, db.bySerial)
    && (if db.unique then NameIndexCovers(db.rows, db.byName) else db.byName == map[])
  }

  ghost predicate Accepted(oidOf: OidParser, rows: seq<Row>) {
    forall i :: 0 <= i < |rows| ==> LoaderAccepts(oidOf, rows[i])
  }

  ghost predicate DistinctSerials(rows: seq<Row>) {
    forall i, j :: 0 <= i < j < |rows| ==> Serial.Key(rows[i].serial) != Serial.Key(rows[j].serial)
  }

  ghost predicate DistinctValidNames(rows: seq<Row>) {
    forall i, j :: 0 <= i < j < |rows| && Kind(rows[i]) == 'V' && Kind(rows[j]) == 'V' ==> rows[i].name != rows[j].name
  }

  lemma {:induction false} SerialIndexCorrect(rows: seq<Row>)
    ensures SerialIndex(rows).Some? <==> DistinctSerials(rows)
    ensures SerialIndex(rows).Some? ==> SerialIndexExact(rows, SerialIndex(rows).value)
    decreases |rows|
  {
    if rows != [] {
      hide Serial.Key, SerialIndex, SerialIndexExact, DistinctSerials;
      var n := |rows| - 1;
      var front, last := rows[..n], rows[n];
      assert front + [last] == rows;
      SerialIndexCorrect(front);
      SerialIndexNext(front, last);
      DistinctSerialsFront(front, last);
      if SerialIndex(front).Some? {
        var m := SerialIndex(front).value;
        DistinctSerialsNext(front, last, m);
        if Serial.Key(last.serial) !in m {
          SerialIndexGrows(front, m, last);
        }
      }
    }
  }

  lemma SerialIndexNext(rows: seq<Row>, row: Row)
    ensures var key := Serial.Key(row.serial);
            SerialIndex(rows + [row]) ==
              match SerialIndex(rows)
              case None => None
              case Some(m) => if key in m then None else Some(m[key := |rows|])
  {
    assert (rows + [row])[..|rows|] == rows;
  }

  lemma DistinctSerialsFront(rows: seq<Row>, row: Row)
    ensures DistinctSerials(rows + [row]) ==> DistinctSerials(rows)
  {
    hide Serial.Key;
    var all := rows + [row];
    assert forall i :: 0 <= i < |rows| ==> all[i] == rows[i];
  }

  lemma DistinctSerialsNext(rows: seq<Row>, row: Row, m: map<string, nat>)
    requires DistinctSerials(rows) && SerialIndexExact(rows, m)
    ensures DistinctSerials(rows + [row]) <==> Serial.Key(row.serial) !in m
  {
    hide Serial.Key;
    var all := rows + [row];
    assert all[|rows|] == row;
    assert forall i :: 0 <= i < |rows| ==> all[i] == rows[i];
    if Serial.Key(row.serial) in m {
      var i := m[Serial.Key(row.serial)];
      assert Serial.Key(all[i].serial) == Serial.Key(all[|rows|].serial);
    }
  }

  lemma {:induction false} NameIndexCorrect(rows: seq<Row>)
    ensures NameIndex(rows).Some? <==> DistinctValidNames(rows)
    ensures NameIndex(rows).Some? ==> NameIndexCovers(rows, NameIndex(rows).value)
    ensures NameIndex(rows).Some? ==> OnlyValid(rows, NameIndex(rows).value)
    decreases |rows|
  {
    if rows != [] {
      hide Kind, NameIndex, NameIndexCovers, DistinctValidNames, OnlyValid;
      var n := |rows| - 1;
      var front, last := rows[..n], rows[n];
      assert front + [last] == rows;
      NameIndexCorrect(front);
      NameIndexNext(front, last);
      DistinctNamesFront(front, last);
      if NameIndex(front).Some? {
        DistinctNamesNext(front, last, NameIndex(front).value);
        NameIndexGrows(front, NameIndex(front).value, last);
      }
    }
  }

  /** An index fresh from loading holds V rows only. */
  ghost predicate OnlyValid(rows: seq<Row>, m: map<string, nat>) {
    forall k :: k in m ==> m[k] < |rows| && Kind(rows[m[k]]) == 'V'
  }

  lemma NameIndexNext(rows: seq<Row>, row: Row)
    ensures NameIndex(rows + [row]) ==
              match NameIndex(rows)
              case None => None
              case Some(m) =>
                if Kind(row) != 'V' then Some(m)
                else if row.name in m then None
                else Some(m[row.name := |rows|])
  {
    assert (rows + [row])[..|rows|] == rows;
  }

  lemma DistinctNamesFront(rows: seq<Row>, row: Row)
    ensures DistinctValidNames(rows + [row]) ==> DistinctValidNames(rows)
  {
    hide Kind;
    var all := rows + [row];
    assert forall i :: 0 <= i < |rows| ==> all[i] == rows[i];
  }

  lemma DistinctNamesNext(rows: seq<Row>, row: Row, m: map<string, nat>)
    requires DistinctValidNames(rows) && NameIndexCovers(rows, m)
    requires OnlyValid(rows, m)
    ensures DistinctValidNames(rows + [row]) <==> Kind(row) != 'V' || row.name !in m
    ensures Kind(row) != 'V' ==> OnlyValid(rows + [row], m)
    ensures Kind(row) == 'V' ==> OnlyValid(rows + [row], m[row.name := |rows|])
  {
    hide Kind;
    var all := rows + [row];
    assert all[|rows|] == row;
    assert forall i :: 0 <= i < |rows| ==> all[i] == rows[i];
    if Kind(row) == 'V' && row.name in m {
      assert all[m[row.name]].name == all[|rows|].name;
    }
  }

  /** Loading succeeds exactly on acceptable rows without clashes, and indexes them. */
  lemma LoadCorrect(oidOf: OidParser, rows: seq<Row>, unique: bool)
    ensures Load(oidOf, rows, unique).Some? <==>
              Accepted(oidOf, rows) && DistinctSerials(rows) && (unique ==> DistinctValidNames(rows))
    ensures Load(oidOf, rows, unique).Some? ==>
              var db := Load(oidOf, rows, unique).value;
              db.rows == rows && db.unique == unique && Indexed(db)
  {
    SerialIndexCorrect(rows);
    NameIndexCorrect(rows);
  }

  lemma IndexedHasNoClash(db: Db)
    requires Indexed(db)
    ensures DistinctSerials(db.rows) && (db.unique ==> DistinctValidNames(db.rows))
  {
  }

  // ----- the steps -----

  /** TXT_DB_insert: refused when the row clashes in an index it qualifies for. */
  function Insert(db: Db, row: Row): Option<Db> {
    var key, n := Serial.Key(row.serial), |db.rows|;
    if key in db.bySerial then None
    else if db.unique && Kind(row) == 'V' && row.name in db.byName then None
    else Some(Db(db.rows + [row], db.unique, db.bySerial[key := n],
                 if db.unique && Kind(row) == 'V' then db.byName[row.name := n] else db.byName))
  }

  datatype Cert = Cert(serial: nat, name: string, expiry: string)

  function NewRow(cert: Cert): Row {
    Row("V", cert.expiry, "", Serial.Text(cert.serial), "unknown", cert.name)
  }

  /** TXT_DB_get_by_index on the name; the row asked about may not have one yet. */
  function LookupName(db: Db, name: Option<string>): Option<nat> {
    if name.Some? && name.value in db.byName then Some(db.byName[name.value]) else None
  }

  function LookupSerial(db: Db, serial: string): Option<nat> {
    if Serial.Key(serial) in db.bySerial then Some(db.bySerial[Serial.Key(serial)]) else None
  }

  /** The database part of do_body: the clash checks and the insertion of the new row. */
  function Issue(db: Db, cert: Cert): Option<Db> {
    if db.unique && LookupName(db, None).Some? then None
    else if LookupSerial(db, Serial.Text(cert.serial)).Some? then None
    else Insert(db, NewRow(cert))
  }

  function RevokedRow(row: Row, revoked: string): Row {
    row.(kind := "R", revoked := revoked)
  }

  /**
   * do_revoke. An unknown certificate is entered as valid and then revoked by a
   * second call; the result says whether the revocation succeeded.
   */
  function Revoke(oidOf: OidParser, db: Db, cert: Cert, now: Instant, kind: int, arg: string): (r: (Db, bool))
    requires Indexed(db) && now.Valid()
    ensures Indexed(r.0)
    decreases if LookupSerial(db, Serial.Text(cert.serial)).Some? then 0 else 1
  {
    match LookupSerial(db, Serial.Text(cert.serial))
    case None =>
      (match Insert(db, NewRow(cert))
       case None => (db, false)
       case Some(db') =>
         InsertKeepsIndexes(db, NewRow(cert));
         Revoke(oidOf, db', cert, now, kind, arg))
    case Some(i) =>
      if db.rows[i].name != cert.name then (db, false)
      else if Kind(db.rows[i]) == 'R' then (db, false)
      else
        match RevocationString(oidOf, now, kind, arg)
        case None => (db, false)
        case Some(str) => MarkedIndexed(db, i, str); (Marked(db, i, str), true)
  }

  /** Marking one row revoked. */
  function Marked(db: Db, i: nat, revoked: string): (r: Db)
    requires i < |db.rows|
  {
    db.(rows := db.rows[i := RevokedRow(db.rows[i], revoked)])
  }

  lemma MarkedIndexed(db: Db, i: nat, revoked: string)
    requires Indexed(db) && i < |db.rows|
    ensures Indexed(Marked(db, i, revoked))
  {
    hide Serial.Key;
  }

  function ExpireRow(row: Row, now: string): Row {
    if Kind(row) == 'V' && CountsAsExpired(row.expiry, now) then row.(kind := "E") else row
  }

  /** do_updatedb on the rows. */
  function ExpireRows(rows: seq<Row>, now: string): (r: seq<Row>)
    ensures |r| == |rows|
    ensures forall i :: 0 <= i < |rows| ==> r[i] == ExpireRow(rows[i], now)
  {
    seq(|rows|, i requires 0 <= i < |rows| => ExpireRow(rows[i], now))
  }

  /** The rows in which two databases of the same length differ. */
  function ChangedRows(before: seq<Row>, after: seq<Row>): set<nat>
    requires |before| == |after|
  {
    set i: nat | i < |before| && before[i] != after[i]
  }

  function Expire(db: Db, now: Instant): Db
    requires now.Valid()
  {
    db.(rows := ExpireRows(db.rows, UtcText(now)))
  }

  lemma InsertKeepsIndexes(db: Db, row: Row)
    requires Indexed(db) && Insert(db, row).Some?
    ensures Indexed(Insert(db, row).value)
  {
    hide Serial.Key, Kind, SerialIndexExact, NameIndexCovers;
    SerialIndexGrows(db.rows, db.bySerial, row);
    if db.unique {
      NameIndexGrows(db.rows, db.byName, row);
    }
  }

  lemma SerialIndexGrows(rows: seq<Row>, m: map<string, nat>, row: Row)
    requires SerialIndexExact(rows, m) && Serial.Key(row.serial) !in m
    ensures SerialIndexExact(rows + [row], m[Serial.Key(row.serial) := |rows|])
  {
    hide Serial.Key;
    var all := rows + [row];
    assert all[|rows|] == row;
    assert forall i :: 0 <= i < |rows| ==> all[i] == rows[i];
  }

  lemma NameIndexGrows(rows: seq<Row>, m: map<string, nat>, row: Row)
    requires NameIndexCovers(rows, m)
    ensures Kind(row) != 'V' ==> NameIndexCovers(rows + [row], m)
    ensures Kind(row) == 'V' && row.name !in m ==> NameIndexCovers(rows + [row], m[row.name := |rows|])
  {
    hide Kind;
    var all := rows + [row];
    assert all[|rows|] == row;
    assert forall i :: 0 <= i < |rows| ==> all[i] == rows[i];
  }

  // ----- runs -----

  datatype Action =
    | IssueStep(cert: Cert)
    | RevokeStep(cert: Cert, now: Instant, kind: int, arg: string)
    | ExpireStep(now: Instant)
    | ReloadStep

  predicate Defined(action: Action) {
    match action
    case IssueStep(_) => true
    case RevokeStep(_, now, _, _) => now.Valid()
    case ExpireStep(now) => now.IsUtc()
    case ReloadStep => true
  }

  type Step = action: Action | Defined(action) witness ReloadStep

  /** A step that is refused leaves the database as do_body, do_revoke or the loader does. */
  function Apply(oidOf: OidParser, db: Db, step: Step): (r: Db)
    requires Indexed(db)
    ensures Indexed(r)
  {
    match step
    case IssueStep(cert) =>
      (match Issue(db, cert)
       case None => db
       case Some(db') => InsertKeepsIndexes(db, NewRow(cert)); db')
    case RevokeStep(cert, now, kind, arg) => Revoke(oidOf, db, cert, now, kind, arg).0
    case ExpireStep(now) => Expire(db, now)
    case ReloadStep =>
      match Load(oidOf, db.rows, db.unique)
      case None => db
      case Some(db') => LoadCorrect(oidOf, db.rows, db.unique); db'
  }

  function Run(oidOf: OidParser, db: Db, steps: seq<Step>): (r: Db)
    requires Indexed(db)
    ensures Indexed(r)
    decreases |steps|
  {
    if steps == [] then db else Run(oidOf, Apply(oidOf, db, steps[0]), steps[1..])
  }

  // ----- reloading after any run -----

  /** Whether do_revoke will enter a row for the certificate. */
  predicate WillInsert(db: Db, cert: Cert) {
    && LookupSerial(db, Serial.Text(cert.serial)).None?
    && !(db.unique && cert.name in db.byName)
  }

  /** Whether do_revoke will mark a row revoked. */
  predicate WillRevoke(oidOf: OidParser, db: Db, cert: Cert, kind: int, arg: string)
    requires Indexed(db)
  {
    && FieldsFor(oidOf, kind, arg).Some?
    && match LookupSerial(db, Serial.Text(cert.serial))
       case None => WillInsert(db, cert)
       case Some(i) => db.rows[i].name == cert.name && Kind(db.rows[i]) != 'R'
  }

  /** The database once the certificate has its row, if it can be given one. */
  function Entered(db: Db, cert: Cert): Db {
    match Insert(db, NewRow(cert))
    case None => db
    case Some(db') => db'
  }

  lemma EnteredIndexed(db: Db, cert: Cert)
    requires Indexed(db)
    ensures Indexed(Entered(db, cert)) && Entered(db, cert).unique == db.unique
    ensures Entered(db, cert).rows == if WillInsert(db, cert) then db.rows + [NewRow(cert)] else db.rows
    ensures WillInsert(db, cert) ==> LookupSerial(Entered(db, cert), Serial.Text(cert.serial)) == Some(|db.rows|)
    ensures !WillInsert(db, cert) ==> Entered(db, cert) == db
  {
    if Insert(db, NewRow(cert)).Some? {
      InsertKeepsIndexes(db, NewRow(cert));
    }
  }

  /** The row do_revoke will mark. */
  ghost function Target(db: Db, cert: Cert): (i: nat)
    requires Indexed(db) && LookupSerial(Entered(db, cert), Serial.Text(cert.serial)).Some?
    ensures i < |Entered(db, cert).rows|
    ensures Serial.Key(Entered(db, cert).rows[i].serial) == Serial.Key(Serial.Text(cert.serial))
  {
    EnteredIndexed(db, cert);
    LookupSerial(Entered(db, cert), Serial.Text(cert.serial)).value
  }

  /** The recursion of do_revoke comes to one step: enter the row if it is missing, then mark it if that is allowed. */
  lemma RevokeOutcome(oidOf: OidParser, db: Db, cert: Cert, now: Instant, kind: int, arg: string)
    requires Indexed(db) && now.Valid()
    ensures WillRevoke(oidOf, db, cert, kind, arg) ==>
              && LookupSerial(Entered(db, cert), Serial.Text(cert.serial)).Some?
              && RevocationString(oidOf, now, kind, arg).Some?
              && Entered(db, cert).rows[Target(db, cert)].name == cert.name
              && Kind(Entered(db, cert).rows[Target(db, cert)]) != 'R'
    ensures Revoke(oidOf, db, cert, now, kind, arg) ==
              if WillRevoke(oidOf, db, cert, kind, arg) then
                (Marked(Entered(db, cert), Target(db, cert), RevocationString(oidOf, now, kind, arg).value), true)
              else
                (Entered(db, cert), false)
  {
    EnteredIndexed(db, cert);
    if WillInsert(db, cert) {
      var db' := Entered(db, cert);
      assert Revoke(oidOf, db, cert, now, kind, arg) == Revoke(oidOf, db', cert, now, kind, arg);
    }
  }

  lemma NewRowAccepted(oidOf: OidParser, cert: Cert)
    ensures SerialOk(NewRow(cert).serial)
    ensures LoaderAccepts(oidOf, NewRow(cert)) <==> TimeOk(cert.expiry)
  {
    Serial.TextRoundTrip(cert.serial);
    assert Serial.Text(cert.serial)[0] != '-';
  }

  lemma AppendAccepted(oidOf: OidParser, rows: seq<Row>, row: Row)
    ensures Accepted(oidOf, rows + [row]) <==> Accepted(oidOf, rows) && LoaderAccepts(oidOf, row)
  {
    var all := rows + [row];
    assert forall i :: 0 <= i < |rows| ==> all[i] == rows[i];
    assert all[|rows|] == row;
  }

  lemma RevokedRowAccepted(oidOf: OidParser, row: Row, now: Instant, kind: int, arg: string)
    requires now.Valid() && RevocationString(oidOf, now, kind, arg).Some?
    requires Kind(row) != 'R' && row.revoked == "" && SerialOk(row.serial)
    ensures LoaderAccepts(oidOf, RevokedRow(row, RevocationString(oidOf, now, kind, arg).value)) <==>
              now.IsUtc() && LoaderAccepts(oidOf, row)
  {
    RoundTrip(oidOf, now, kind, arg);
  }

  lemma ReplaceAccepted(oidOf: OidParser, rows: seq<Row>, i: nat, row: Row, condition: bool)
    requires i < |rows|
    requires LoaderAccepts(oidOf, row) <==> condition && LoaderAccepts(oidOf, rows[i])
    ensures Accepted(oidOf, rows[i := row]) <==>
              LoaderAccepts(oidOf, row) && forall j :: 0 <= j < |rows| && j != i ==> LoaderAccepts(oidOf, rows[j])
    ensures Accepted(oidOf, rows) && condition ==> Accepted(oidOf, rows[i := row])
    ensures Accepted(oidOf, rows[i := row]) ==> Accepted(oidOf, rows) && condition
  {
    var r := rows[i := row];
    assert forall j :: 0 <= j < |rows| && j != i ==> r[j] == rows[j];
    assert r[i] == row;
  }

  /**
   * When a database survives do_revoke: the expiry of a certificate that has to
   * be entered must pass the loader, and the clock must still print a UTCTime.
   */
  lemma RevokeReloadsIff(oidOf: OidParser, db: Db, cert: Cert, now: Instant, kind: int, arg: string)
    requires Indexed(db) && Accepted(oidOf, db.rows) && now.Valid()
    ensures Load(oidOf, Revoke(oidOf, db, cert, now, kind, arg).0.rows, db.unique).Some? <==>
              && (WillInsert(db, cert) ==> TimeOk(cert.expiry))
              && (WillRevoke(oidOf, db, cert, kind, arg) ==> now.IsUtc())
  {
    var r := Revoke(oidOf, db, cert, now, kind, arg).0;
    RevokeAcceptedIff(oidOf, db, cert, now, kind, arg);
    EnteredIndexed(db, cert);
    RevokeOutcome(oidOf, db, cert, now, kind, arg);
    assert r.unique == db.unique;
    LoadCorrect(oidOf, r.rows, db.unique);
    IndexedHasNoClash(r);
  }

  /**
   * A run that fails to reload: a certificate that is not in the database and
   * whose expiry date is malformed is revoked, successfully.
   */
  lemma RevokeSpoilsDatabase(oidOf: OidParser, unique: bool)
    ensures var db, cert := Db([], unique, map[], map[]), Cert(10, "example", "never");
            && Load(oidOf, [], unique) == Some(db)
            && var (r, ok) := Revoke(oidOf, db, cert, FIRST_UTC, REV_NONE, "");
            ok && Load(oidOf, r.rows, unique).None?
  {
    hide Revoke, LoaderAccepts, Serial.Text, Serial.Key;
    var db, cert := Db([], unique, map[], map[]), Cert(10, "example", "never");
    RevokeOutcome(oidOf, db, cert, FIRST_UTC, REV_NONE, "");
    EnteredIndexed(db, cert);
    RevokeReloadsIff(oidOf, db, cert, FIRST_UTC, REV_NONE, "");
    assert !TimeOk("never");
  }

  lemma RevokeAcceptedIff(oidOf: OidParser, db: Db, cert: Cert, now: Instant, kind: int, arg: string)
    requires Indexed(db) && Accepted(oidOf, db.rows) && now.Valid()
    ensures Accepted(oidOf, Revoke(oidOf, db, cert, now, kind, arg).0.rows) <==>
              && (WillInsert(db, cert) ==> TimeOk(cert.expiry))
              && (WillRevoke(oidOf, db, cert, kind, arg) ==> now.IsUtc())
  {
    var e := Entered(db, cert);
    RevokeOutcome(oidOf, db, cert, now, kind, arg);
    EnteredIndexed(db, cert);
    NewRowAccepted(oidOf, cert);
    AppendAccepted(oidOf, db.rows, NewRow(cert));
    assert Accepted(oidOf, e.rows) <==> (WillInsert(db, cert) ==> TimeOk(cert.expiry));
    if WillRevoke(oidOf, db, cert, kind, arg) {
      var i := Target(db, cert);
      var str := RevocationString(oidOf, now, kind, arg).value;
      if i < |db.rows| {
        assert e.rows[i] == db.rows[i] && LoaderAccepts(oidOf, db.rows[i]);
      } else {
        assert e.rows[i] == NewRow(cert);
      }
      RevokedRowAccepted(oidOf, e.rows[i], now, kind, arg);
      ReplaceAccepted(oidOf, e.rows, i, RevokedRow(e.rows[i], str), now.IsUtc());
    }
  }

  /** When a database survives issuing: exactly when the new expiry date passes the loader. */
  lemma IssueReloadsIff(oidOf: OidParser, db: Db, cert: Cert)
    requires Indexed(db) && Accepted(oidOf, db.rows) && Issue(db, cert).Some?
    ensures Load(oidOf, Issue(db, cert).value.rows, db.unique).Some? <==> TimeOk(cert.expiry)
  {
    var r := Issue(db, cert).value;
    IssueRestsOnInsert(db, cert);
    InsertKeepsIndexes(db, NewRow(cert));
    NewRowAccepted(oidOf, cert);
    AppendAccepted(oidOf, db.rows, NewRow(cert));
    LoadCorrect(oidOf, r.rows, db.unique);
    IndexedHasNoClash(r);
  }

  /** What the surroundings of a step must provide: sound expiry dates and a clock before 2050. */
  predicate StepSound(db: Db, step: Step) {
    match step
    case IssueStep(cert) => TimeOk(cert.expiry)
    case RevokeStep(cert, now, _, _) => now.IsUtc() && (WillInsert(db, cert) ==> TimeOk(cert.expiry))
    case ExpireStep(now) => now.IsUtc()
    case ReloadStep => true
  }

  ghost predicate RunSound(oidOf: OidParser, db: Db, steps: seq<Step>)
    requires Indexed(db)
    decreases |steps|
  {
    steps == [] ||
    (StepSound(db, steps[0]) && RunSound(oidOf, Apply(oidOf, db, steps[0]), steps[1..]))
  }

  lemma StepKeepsAccepted(oidOf: OidParser, db: Db, step: Step)
    requires Indexed(db) && Accepted(oidOf, db.rows) && StepSound(db, step)
    ensures var r := Apply(oidOf, db, step); Accepted(oidOf, r.rows) && r.unique == db.unique
  {
    hide Revoke, CountsAsExpired, Serial.Key, TimeOk, MakeRevoked, RevocationString, WillRevoke, WillInsert, SerialOk;
    match step
    case IssueStep(cert) =>
      NewRowAccepted(oidOf, cert);
      AppendAccepted(oidOf, db.rows, NewRow(cert));
    case RevokeStep(cert, now, kind, arg) =>
      RevokeAcceptedIff(oidOf, db, cert, now, kind, arg);
      RevokeOutcome(oidOf, db, cert, now, kind, arg);
      EnteredIndexed(db, cert);
    case ExpireStep(now) =>
    case ReloadStep =>
      LoadCorrect(oidOf, db.rows, db.unique);
  }

  /**
   * After any run of issuing, revoking, expiring and reloading, the database
   * written out loads again: every row passes the checks and no two rows clash.
   */
  lemma {:induction false} RunReloads(oidOf: OidParser, db: Db, steps: seq<Step>)
    requires Indexed(db) && Accepted(oidOf, db.rows)
    requires RunSound(oidOf, db, steps)
    ensures var r := Run(oidOf, db, steps);
            && Load(oidOf, r.rows, db.unique).Some?
            && DistinctSerials(r.rows) && (db.unique ==> DistinctValidNames(r.rows))
    decreases |steps|
  {
    if steps == [] {
      IndexedHasNoClash(db);
      LoadCorrect(oidOf, db.rows, db.unique);
    } else {
      StepKeepsAccepted(oidOf, db, steps[0]);
      RunReloads(oidOf, Apply(oidOf, db, steps[0]), steps[1..]);
    }
  }

  lemma StepKeepsUnique(oidOf: OidParser, db: Db, step: Step)
    requires Indexed(db)
    ensures Apply(oidOf, db, step).unique == db.unique
  {
    hide Revoke;
    match step
    case IssueStep(cert) =>
    case RevokeStep(cert, now, kind, arg) =>
      RevokeOutcome(oidOf, db, cert, now, kind, arg);
      EnteredIndexed(db, cert);
    case ExpireStep(_) =>
    case ReloadStep => LoadCorrect(oidOf, db.rows, db.unique);
  }

  /**
   * Over any run whatever, refused and unsound steps included, no two rows share
   * a serial number and, under unique_subject, no two valid rows share a name.
   */
  lemma {:induction false} RunNeverClashes(oidOf: OidParser, db: Db, steps: seq<Step>)
    requires Indexed(db)
    ensures var r := Run(oidOf, db, steps);
            r.unique == db.unique && DistinctSerials(r.rows) && (db.unique ==> DistinctValidNames(r.rows))
    decreases |steps|
  {
    hide Apply, Indexed;
    if steps == [] {
      IndexedHasNoClash(db);
    } else {
      StepKeepsUnique(oidOf, db, steps[0]);
      RunNeverClashes(oidOf, Apply(oidOf, db, steps[0]), steps[1..]);
    }
  }

  // ----- the life cycle of a row -----

  /** V may become E or R, anything but R may become R, and nothing else changes. */
  predicate RowEvolves(before: Row, after: Row) {
    || after == before
    || (Kind(before) == 'V' && after == before.(kind := "E"))
    || (Kind(before) != 'R' &&
        after == Row("R", before.expiry, after.revoked, before.serial, before.file, before.name))
  }

  ghost predicate Evolves(before: seq<Row>, after: seq<Row>) {
    && |before| <= |after|
    && forall i :: 0 <= i < |before| ==> RowEvolves(before[i], after[i])
  }

  lemma EvolvesTransitive(a: seq<Row>, b: seq<Row>, c: seq<Row>)
    requires Evolves(a, b) && Evolves(b, c)
    ensures Evolves(a, c)
  {
    forall i | 0 <= i < |a| ensures RowEvolves(a[i], c[i]) {
      assert RowEvolves(a[i], b[i]) && RowEvolves(b[i], c[i]);
    }
  }

  lemma StepEvolves(oidOf: OidParser, db: Db, step: Step)
    requires Indexed(db)
    ensures var r := Apply(oidOf, db, step).rows;
            Evolves(db.rows, r) && |r| <= |db.rows| + 1
  {
    hide Revoke, CountsAsExpired, Serial.Key, Load, LoaderAccepts, RevocationString, WillRevoke, WillInsert, Kind,
      RowEvolves, Evolves;
    match step
    case IssueStep(cert) =>
      AppendEvolves(db.rows, [NewRow(cert)]);
      AppendEvolves(db.rows, []);
    case RevokeStep(cert, now, kind, arg) =>
      RevokeOutcome(oidOf, db, cert, now, kind, arg);
      EnteredIndexed(db, cert);
      AppendEvolves(db.rows, [NewRow(cert)]);
      AppendEvolves(db.rows, []);
      if WillRevoke(oidOf, db, cert, kind, arg) {
        MarkedEvolves(Entered(db, cert), Target(db, cert), RevocationString(oidOf, now, kind, arg).value);
        EvolvesTransitive(db.rows, Entered(db, cert).rows, Apply(oidOf, db, step).rows);
      }
    case ExpireStep(now) =>
      ExpireEvolves(db.rows, UtcText(now));
    case ReloadStep =>
      LoadCorrect(oidOf, db.rows, db.unique);
      AppendEvolves(db.rows, []);
  }

  lemma AppendEvolves(rows: seq<Row>, more: seq<Row>)
    ensures Evolves(rows, rows + more) && (more == [] ==> Evolves(rows, rows))
  {
    assert forall i :: 0 <= i < |rows| ==> (rows + more)[i] == rows[i];
  }

  lemma MarkedEvolves(db: Db, i: nat, revoked: string)
    requires i < |db.rows| && Kind(db.rows[i]) != 'R'
    ensures Evolves(db.rows, Marked(db, i, revoked).rows)
  {
    hide Kind;
  }

  lemma ExpireEvolves(rows: seq<Row>, now: string)
    ensures Evolves(rows, ExpireRows(rows, now))
  {
    hide Kind, CountsAsExpired;
  }

  /** Over any run rows are never removed, and each changes only along its life cycle. */
  lemma {:induction false} RunEvolves(oidOf: OidParser, db: Db, steps: seq<Step>)
    requires Indexed(db)
    ensures Evolves(db.rows, Run(oidOf, db, steps).rows)
    decreases |steps|
  {
    if steps != [] {
      var mid := Apply(oidOf, db, steps[0]);
      StepEvolves(oidOf, db, steps[0]);
      RunEvolves(oidOf, mid, steps[1..]);
      EvolvesTransitive(db.rows, mid.rows, Run(oidOf, db, steps).rows);
    }
  }

  /** A revoked row is final: no run touches it again, and its serial stays taken. */
  lemma RevokedIsFinal(oidOf: OidParser, db: Db, steps: seq<Step>, i: nat)
    requires Indexed(db)
    requires i < |db.rows| && Kind(db.rows[i]) == 'R'
    ensures var r := Run(oidOf, db, steps);
            && i < |r.rows| && r.rows[i] == db.rows[i]
            && LookupSerial(r, db.rows[i].serial) == Some(i)
  {
    RunEvolves(oidOf, db, steps);
    assert RowEvolves(db.rows[i], Run(oidOf, db, steps).rows[i]);
  }

  /** do_revoke leaves every row alone whose serial number is another one. */
  lemma RevokeTouchesOneSerial(oidOf: OidParser, db: Db, cert: Cert, now: Instant, kind: int, arg: string, i: nat)
    requires Indexed(db) && now.Valid()
    requires i < |db.rows| && Serial.Key(db.rows[i].serial) != Serial.Key(Serial.Text(cert.serial))
    ensures var r := Revoke(oidOf, db, cert, now, kind, arg).0.rows;
            |db.rows| <= |r| <= |db.rows| + 1 && r[i] == db.rows[i]
  {
    RevokeOutcome(oidOf, db, cert, now, kind, arg);
    EnteredIndexed(db, cert);
  }

  /** Revoking twice: the second attempt is refused and changes nothing. */
  lemma RevokeTwice(oidOf: OidParser, db: Db, cert: Cert, now: Instant, kind: int, arg: string, later: Instant,
                    kind': int, arg': string)
    requires Indexed(db) && now.Valid() && later.Valid()
    requires Revoke(oidOf, db, cert, now, kind, arg).1
    ensures var r := Revoke(oidOf, db, cert, now, kind, arg).0;
            Revoke(oidOf, r, cert, later, kind', arg') == (r, false)
  {
    var r := Revoke(oidOf, db, cert, now, kind, arg).0;
    EnteredIndexed(db, cert);
    RevokeOutcome(oidOf, db, cert, now, kind, arg);
    assert Kind(r.rows[Target(db, cert)]) == 'R';
  }

  // ----- what is entered in a row -----

  /** The row issued for a certificate: valid, not revoked, and otherwise as the certificate says. */
  ghost predicate IssuedFor(row: Row, cert: Cert) {
    && row.kind == "V" && row.expiry == cert.expiry && row.revoked == ""
    && HasNumber(row, cert.serial) && row.file == "unknown" && row.name == cert.name
  }

  lemma NewRowIssued(cert: Cert)
    ensures IssuedFor(NewRow(cert), cert)
  {
    Serial.TextRoundTrip(cert.serial);
  }

  /** Issuing adds one row, that of the certificate, and leaves the others alone. */
  lemma IssueAddsRow(db: Db, cert: Cert)
    requires Indexed(db) && Issue(db, cert).Some?
    ensures var r := Issue(db, cert).value;
            && r.unique == db.unique && |r.rows| == |db.rows| + 1 && r.rows[..|db.rows|] == db.rows
            && IssuedFor(r.rows[|db.rows|], cert)
  {
    hide Serial.Key, Serial.Text;
    NewRowIssued(cert);
    IssueRestsOnInsert(db, cert);
  }

  /** So a certificate issued with an expiry that loads is marked expired exactly when that text is due. */
  lemma IssuedThenExpired(db: Db, cert: Cert, now: Instant)
    requires Indexed(db) && Issue(db, cert).Some? && TimeOk(cert.expiry) && now.IsUtc()
    ensures var rows := Issue(db, cert).value.rows;
            && |rows| == |db.rows| + 1
            && ExpireRows(rows, UtcText(now))[|db.rows|].kind ==
                 if ReadAs(cert.expiry).AtOrBefore(now) then "E" else "V"
  {
    hide TimeOk, UtcText;
    IssueAddsRow(db, cert);
    ExpireReads(Issue(db, cert).value.rows, now, |db.rows|);
  }

  /**
   * When do_revoke succeeds, the row found under the number is revoked, with the
   * whole revocation string, for the certificate's name; the rest of it is as it
   * was, or as the certificate says if it had to be entered.
   */
  lemma RevokedRowIs(oidOf: OidParser, db: Db, cert: Cert, now: Instant, kind: int, arg: string) returns (i: nat)
    requires Indexed(db) && now.Valid() && Revoke(oidOf, db, cert, now, kind, arg).1
    ensures RevocationString(oidOf, now, kind, arg).Some?
    ensures var r := Revoke(oidOf, db, cert, now, kind, arg).0;
            && LookupSerial(r, Serial.Text(cert.serial)) == Some(i) && i < |r.rows|
            && r.rows[i].kind == "R" && r.rows[i].name == cert.name
            && r.rows[i].revoked == RevocationString(oidOf, now, kind, arg).value
            && (i < |db.rows| ==>
                  && r.rows[i].expiry == db.rows[i].expiry && r.rows[i].serial == db.rows[i].serial
                  && r.rows[i].file == db.rows[i].file && r.rows[i].name == db.rows[i].name)
            && (i >= |db.rows| ==>
                  && i == |db.rows|
                  && r.rows[i].expiry == cert.expiry && HasNumber(r.rows[i], cert.serial)
                  && r.rows[i].file == "unknown")
  {
    hide Revoke, Serial.Key, Serial.Text, RevocationString, FieldsFor;
    RevokeOutcome(oidOf, db, cert, now, kind, arg);
    EnteredIndexed(db, cert);
    NewRowIssued(cert);
    i := Target(db, cert);
  }

  /** From the command line to the CRL: before 2050 the entry made for the row says what was asked for. */
  lemma RevokedAsAsked(oidOf: OidParser, db: Db, cert: Cert, now: Instant, kind: int, arg: string) returns (i: nat)
    requires Indexed(db) && now.IsUtc() && Revoke(oidOf, db, cert, now, kind, arg).1
    ensures var r := Revoke(oidOf, db, cert, now, kind, arg).0;
            && LookupSerial(r, Serial.Text(cert.serial)) == Some(i) && i < |r.rows|
            && var entry := MakeRevoked(oidOf, r.rows[i].revoked);
            && entry.Some? && entry.value.time == UtcText(now)
            && MeansReason(kind, arg, if entry.value.reason.Some? then entry.value.reason.value else NO_STATUS)
            && entry.value.hold == (if kind == REV_HOLD then oidOf(arg) else None)
            && entry.value.invalidity ==
                 if kind == REV_KEY_COMPROMISE || kind == REV_CA_COMPROMISE then Some(arg) else None
  {
    hide Revoke, RevocationString, Unpack, MeansReason;
    i := RevokedRowIs(oidOf, db, cert, now, kind, arg);
    RoundTrip(oidOf, now, kind, arg);
  }

  // ----- unique subjects -----

  /**
   * The clash check before signing looks a name up that has not been filled in
   * yet and never objects; what keeps subjects unique is the insertion.
   */
  lemma IssueRestsOnInsert(db: Db, cert: Cert)
    requires Indexed(db)
    ensures Issue(db, cert) == Insert(db, NewRow(cert))
    ensures Issue(db, cert).Some? <==>
              && (forall i :: 0 <= i < |db.rows| ==>
                  Serial.Key(db.rows[i].serial) != Serial.Key(Serial.Text(cert.serial)))
              && !(db.unique && cert.name in db.byName)
    ensures db.unique && Issue(db, cert).Some? ==>
              forall i :: 0 <= i < |db.rows| && Kind(db.rows[i]) == 'V' ==> db.rows[i].name != cert.name
  {
  }

  /** A valid row has the name. */
  ghost predicate HasValid(rows: seq<Row>, name: string) {
    exists i :: 0 <= i < |rows| && Kind(rows[i]) == 'V' && rows[i].name == name
  }

  /** On a database just loaded, issuing succeeds exactly when the number is free and no valid row has the name. */
  lemma IssueOnLoaded(oidOf: OidParser, rows: seq<Row>, db: Db, cert: Cert)
    requires Load(oidOf, rows, true) == Some(db)
    ensures Indexed(db) && db.rows == rows && db.unique
    ensures cert.name in db.byName <==> HasValid(rows, cert.name)
    ensures Issue(db, cert).Some? <==> LookupSerial(db, Serial.Text(cert.serial)).None? && !HasValid(rows, cert.name)
  {
    hide Serial.Key, Serial.Text, LoaderAccepts;
    LoadCorrect(oidOf, rows, true);
    NameIndexCorrect(rows);
    IssueRestsOnInsert(db, cert);
    assert HasValid(rows, cert.name) ==> cert.name in db.byName;
    if cert.name in db.byName {
      assert Kind(rows[db.byName[cert.name]]) == 'V';
    }
  }

  /**
   * Stale entries, as a run meets them that updates the database and then
   * issues. Rows just marked expired still hold their names: issuing succeeds
   * exactly when the number is free and no row that was valid on loading has the
   * name. After reloading, it is the rows that are still valid that count.
   */
  lemma StaleNameBlocksUntilReload(oidOf: OidParser, rows: seq<Row>, db: Db, now: Instant, cert: Cert)
    requires Load(oidOf, rows, true) == Some(db) && now.IsUtc()
    ensures var expired, free := Expire(db, now), LookupSerial(db, Serial.Text(cert.serial)).None?;
            && Indexed(expired)
            && (Issue(expired, cert).Some? <==> free && !HasValid(rows, cert.name))
            && Load(oidOf, expired.rows, true).Some?
            && (Issue(Load(oidOf, expired.rows, true).value, cert).Some? <==>
                  free && !HasValid(expired.rows, cert.name))
  {
    hide Serial.Key, Serial.Text, LoaderAccepts, UtcText, Load, SerialIndexExact, NameIndexCovers, Issue, Insert, Kind;
    var expired := Expire(db, now);
    IssueOnLoaded(oidOf, rows, db, cert);
    LoadedAccepted(oidOf, rows, true);
    StepKeepsAccepted(oidOf, db, ExpireStep(now));
    assert Apply(oidOf, db, ExpireStep(now)) == expired;
    IndexedHasNoClash(expired);
    LoadCorrect(oidOf, expired.rows, true);
    IssueCases(db, cert);
    IssueCases(expired, cert);
    var reloaded := Load(oidOf, expired.rows, true).value;
    IssueOnLoaded(oidOf, expired.rows, reloaded, cert);
    SameRowsSameSerials(expired, reloaded, Serial.Text(cert.serial));
  }

  lemma LoadedAccepted(oidOf: OidParser, rows: seq<Row>, unique: bool)
    requires Load(oidOf, rows, unique).Some?
    ensures Accepted(oidOf, rows)
  {
    hide LoaderAccepts;
    LoadCorrect(oidOf, rows, unique);
  }

  /** Issuing looks at the indexes alone. */
  lemma IssueCases(db: Db, cert: Cert)
    requires Indexed(db)
    ensures Issue(db, cert).Some? <==>
              LookupSerial(db, Serial.Text(cert.serial)).None? && !(db.unique && cert.name in db.byName)
  {
  }

  /** What a serial number is found under depends on the rows alone. */
  lemma SameRowsSameSerials(a: Db, b: Db, serial: string)
    requires Indexed(a) && Indexed(b) && a.rows == b.rows
    ensures LookupSerial(a, serial) == LookupSerial(b, serial)
  {
    hide Serial.Key;
  }

  /** So a name is blocked until the database is reloaded exactly when its only valid row has just expired. */
  lemma BlockedUntilReloadIff(oidOf: OidParser, rows: seq<Row>, db: Db, now: Instant, cert: Cert)
    requires Load(oidOf, rows, true) == Some(db) && now.IsUtc()
    requires LookupSerial(db, Serial.Text(cert.serial)).None?
    ensures var expired := Expire(db, now);
            && Indexed(expired) && Load(oidOf, expired.rows, true).Some?
            && (Issue(expired, cert).None? && Issue(Load(oidOf, expired.rows, true).value, cert).Some? <==>
                  exists i :: 0 <= i < |rows| && rows[i].name == cert.name &&
                    Kind(rows[i]) == 'V' && CountsAsExpired(rows[i].expiry, UtcText(now)))
  {
    hide Serial.Key, Serial.Text, LoaderAccepts, UtcText, Load, Issue, Insert, CountsAsExpired, LookupSerial, Indexed;
    StaleNameBlocksUntilReload(oidOf, rows, db, now, cert);
    IssueOnLoaded(oidOf, rows, db, cert);
    IndexedHasNoClash(db);
    var after := Expire(db, now).rows;
    if i :| 0 <= i < |rows| && Kind(rows[i]) == 'V' && rows[i].name == cert.name {
      if CountsAsExpired(rows[i].expiry, UtcText(now)) {
        forall j | 0 <= j < |rows| && Kind(after[j]) == 'V' ensures after[j].name != cert.name {
          assert after[j] == ExpireRow(rows[j], UtcText(now)) && Kind(rows[j]) == 'V';
        }
      } else {
        assert after[i] == rows[i];
        assert HasValid(after, cert.name);
      }
    }
  }

  /** An input that is blocked: the one row for a name expires, and the name is issued again in the same run. */
  lemma StaleNameExample(oidOf: OidParser)
    ensures var rows, cert := [ExampleRow("V", "", "0A")], Cert(11, "example", UtcText(LAST_UTC));
            && Load(oidOf, rows, true).Some?
            && var expired := Expire(Load(oidOf, rows, true).value, LAST_UTC);
            && Indexed(expired) && Issue(expired, cert).None?
            && Load(oidOf, expired.rows, true).Some? && Issue(Load(oidOf, expired.rows, true).value, cert).Some?
  {
    hide LoaderAccepts, UtcText, Load, Issue, CountsAsExpired, LookupSerial, Indexed, Serial.Text, Serial.Key;
    var row, cert := ExampleRow("V", "", "0A"), Cert(11, "example", UtcText(LAST_UTC));
    TenInDigits();
    ExampleRowLoads(oidOf, "V", "", "0A");
    SingleRowLoads(oidOf, row, true);
    var db := Load(oidOf, [row], true).value;
    Serial.TextRoundTrip(11);
    LookupIsNumeric(db, Serial.Text(11));
    Serial.UpperNumberOf("0A");
    UtcTextIsUtcTime(LAST_UTC);
    ExpireReads([row], LAST_UTC, 0);
    LastUtcIsReached();
    BlockedUntilReloadIff(oidOf, [row], db, LAST_UTC, cert);
  }

  lemma LastUtcIsReached()
    ensures CountsAsExpired(UtcText(LAST_UTC), UtcText(LAST_UTC))
  {
    hide CountsAsExpired, UtcText;
    ExpiryOfInstant(LAST_UTC, LAST_UTC);
  }

  // ----- expiry -----

  /** A V row is marked E exactly when the date do_updatedb takes its expiry text for has come. */
  lemma ExpireReads(rows: seq<Row>, now: Instant, i: nat)
    requires i < |rows| && now.IsUtc() && TimeOk(rows[i].expiry)
    ensures var r := ExpireRows(rows, UtcText(now))[i];
            && (r != rows[i] <==> Kind(rows[i]) == 'V' && ReadAs(rows[i].expiry).AtOrBefore(now))
            && (r != rows[i] ==> r == rows[i].(kind := "E"))
  {
    hide UtcText, CountsAsExpired, TimeOk;
    ExpiryReads(rows[i].expiry, now);
  }

  /** So it is marked rightly unless the present lies between that date and the one the text says. */
  lemma ExpireIsRightIff(rows: seq<Row>, now: Instant, i: nat)
    requires i < |rows| && now.IsUtc() && TimeOk(rows[i].expiry)
    ensures var r := ExpireRows(rows, UtcText(now))[i];
            (r != rows[i] <==> Kind(rows[i]) == 'V' && HasCome(rows[i].expiry, now)) <==>
              !(Kind(rows[i]) == 'V' && Misjudged(rows[i].expiry, now))
  {
    hide UtcText, CountsAsExpired, TimeOk, Misjudged, HasCome;
    ExpiryIsRightIff(rows[i].expiry, now);
  }

  /** With a UTCTime at zone zero, not cut short by a Z after the minutes, a V row is marked exactly when it is due. */
  lemma ExpireIsChronological(rows: seq<Row>, now: Instant, i: nat)
    requires i < |rows| && now.IsUtc() && ReadAsMeant(rows[i].expiry)
    ensures var r := ExpireRows(rows, UtcText(now))[i];
            && (r != rows[i] <==> Kind(rows[i]) == 'V' && Written(rows[i].expiry).AtOrBefore(now))
            && (r != rows[i] ==> r == rows[i].(kind := "E"))
  {
    hide UtcText, CountsAsExpired, UtcTimeOk;
    ExpiryIsChronological(rows[i].expiry, now);
  }

  /** A second pass at the same time finds nothing more to expire. */
  lemma ExpireTwice(rows: seq<Row>, now: string)
    ensures ExpireRows(ExpireRows(rows, now), now) == ExpireRows(rows, now)
  {
  }

  // ----- serial numbers as numbers -----

  ghost predicate Numbered(rows: seq<Row>) {
    forall i :: 0 <= i < |rows| ==> Serial.IsUpperHex(rows[i].serial)
  }

  /** The row shows the number in uppercase digits, as ca writes it. */
  ghost predicate HasNumber(row: Row, n: nat) {
    Serial.IsUpperHex(row.serial) && Serial.Value(row.serial) == n
  }

  /** The index finds a row exactly when it has that number, whatever the other rows are. */
  lemma LookupIsNumeric(db: Db, serial: string)
    requires Indexed(db) && Serial.IsUpperHex(serial)
    ensures forall i: nat :: i < |db.rows| ==>
              (HasNumber(db.rows[i], Serial.Value(serial)) <==> LookupSerial(db, serial) == Some(i))
    ensures LookupSerial(db, serial).Some? ==> LookupSerial(db, serial).value < |db.rows|
  {
    hide Serial.Key;
    forall i | 0 <= i < |db.rows|
      ensures Serial.Key(db.rows[i].serial) == Serial.Key(serial) <==> HasNumber(db.rows[i], Serial.Value(serial))
    {
      Serial.KeyKeepsCase(db.rows[i].serial);
      Serial.KeyKeepsCase(serial);
      if Serial.IsUpperHex(db.rows[i].serial) {
        Serial.KeyIsNumeric(db.rows[i].serial, serial);
      }
    }
  }

  /**
   * A row that loads is found by its number exactly when its digits are
   * uppercase and without a sign.
   */
  lemma FoundByNumberIff(db: Db, i: nat, n: nat)
    requires Indexed(db) && i < |db.rows| && SerialOk(db.rows[i].serial)
    requires Serial.NumberOf(db.rows[i].serial) == n
    ensures LookupSerial(db, Serial.Text(n)) == Some(i) <==> Serial.IsUpperHex(db.rows[i].serial)
  {
    hide Serial.Text, Serial.Key;
    Serial.TextRoundTrip(n);
    LookupIsNumeric(db, Serial.Text(n));
    if Serial.IsUpperHex(db.rows[i].serial) {
      Serial.UpperNumberOf(db.rows[i].serial);
    }
  }

  /** A serial number as the file may have it: a sign or none, and whole bytes in hex digits of either case. */
  ghost predicate WholeBytes(serial: string, sign: string, bytes: seq<Serial.Byte>) {
    && (sign == "" || sign == "-")
    && bytes != [] && Serial.Upper(serial) == sign + Serial.HexBytes(bytes)
  }

  /** The loader's test of a serial number accepts one or more whole bytes, and nothing else. */
  lemma SerialOkIff(serial: string)
    ensures SerialOk(serial) <==> exists sign, bytes :: WholeBytes(serial, sign, bytes)
  {
    hide Serial.HexBytes, SerialOk;
    if SerialOk(serial) {
      var sign, bytes := BytesOfSerial(serial);
    }
    if sign, bytes :| WholeBytes(serial, sign, bytes) {
      WholeBytesOk(serial, sign, bytes);
    }
  }

  lemma BytesOfSerial(serial: string) returns (sign: string, bytes: seq<Serial.Byte>)
    requires SerialOk(serial)
    ensures WholeBytes(serial, sign, bytes)
  {
    hide Serial.HexBytes, Serial.IsHex;
    sign := if serial != "" && serial[0] == '-' then "-" else "";
    var digits := serial[|sign|..];
    assert serial == sign + digits;
    bytes := Serial.BytesOf(digits);
    assert Serial.Upper(serial) == sign + Serial.Upper(digits);
  }

  lemma WholeBytesOk(serial: string, sign: string, bytes: seq<Serial.Byte>)
    requires WholeBytes(serial, sign, bytes)
    ensures SerialOk(serial)
  {
    hide Serial.HexBytes;
    Serial.HexBytesAreHex(bytes);
    var digits, raised := serial[|sign|..], sign + Serial.HexBytes(bytes);
    assert |serial| == |raised|;
    forall i | 0 <= i < |digits| ensures Serial.IsHexDigit(digits[i]) {
      assert ToUpper(serial[|sign| + i]) == raised[|sign| + i] == Serial.HexBytes(bytes)[i];
    }
    assert ToUpper(serial[0]) == raised[0];
    assert sign == "" ==> digits == serial;
  }

  /**
   * What a row must say to be loaded: a revocation that can be read exactly if it
   * is revoked, a well-formed time and a number of whole bytes.
   */
  ghost predicate SoundRow(oidOf: OidParser, row: Row) {
    && (if row.kind != "" && row.kind[0] == 'R' then Unpack(oidOf, row.revoked).ok else row.revoked == "")
    && (UtcTimeOk(row.expiry) || GeneralizedTimeOk(row.expiry))
    && exists sign, bytes :: WholeBytes(row.serial, sign, bytes)
  }

  lemma LoaderAcceptsIff(oidOf: OidParser, row: Row)
    ensures LoaderAccepts(oidOf, row) <==> SoundRow(oidOf, row)
  {
    hide UtcTimeOk, GeneralizedTimeOk, UnpackFields, SerialOk;
    SerialOkIff(row.serial);
    UnpackedOk(oidOf, row.revoked);
  }

  /** Over any run, every row in the file is sound. */
  lemma RunKeepsRowsSound(oidOf: OidParser, db: Db, steps: seq<Step>, i: nat)
    requires Indexed(db) && Accepted(oidOf, db.rows) && RunSound(oidOf, db, steps)
    requires i < |Run(oidOf, db, steps).rows|
    ensures SoundRow(oidOf, Run(oidOf, db, steps).rows[i])
  {
    hide LoaderAccepts, SoundRow;
    RunReloads(oidOf, db, steps);
    LoadedAccepted(oidOf, Run(oidOf, db, steps).rows, db.unique);
    LoaderAcceptsIff(oidOf, Run(oidOf, db, steps).rows[i]);
  }

  /** A valid row of the year 2049, for the examples. */
  function ExampleRow(kind: string, revoked: string, serial: string): Row {
    Row(kind, UtcText(LAST_UTC), revoked, serial, "unknown", "example")
  }

  lemma ExampleRowLoads(oidOf: OidParser, kind: string, revoked: string, serial: string)
    requires kind == "V" || kind == "R"
    requires if kind == "R" then MakeRevoked(oidOf, revoked).Some? else revoked == ""
    requires |serial| == 2 && Serial.IsHex(serial)
    ensures LoaderAccepts(oidOf, ExampleRow(kind, revoked, serial))
  {
    UtcTextIsUtcTime(LAST_UTC);
    hide UtcText, UtcTimeOk, GeneralizedTimeOk, MakeRevoked;
    assert Serial.IsHexDigit(serial[0]);
  }

  lemma SingleRowLoads(oidOf: OidParser, row: Row, unique: bool)
    requires LoaderAccepts(oidOf, row)
    ensures Load(oidOf, [row], unique).Some?
    ensures var db := Load(oidOf, [row], unique).value; db.rows == [row] && db.unique == unique && Indexed(db)
  {
    hide LoaderAccepts;
    LoadCorrect(oidOf, [row], unique);
  }

  /**
   * Lowercase digits load and yet are lost to lookups by number: 0a and 0A load
   * together, both of them 10, and only the second is found; alone, the first is
   * not found at all.
   */
  lemma LowercaseIsLost(oidOf: OidParser, unique: bool)
    ensures var a, b := ExampleRow("V", "", "0a"), ExampleRow("V", "", "0A").(name := "other");
            && Serial.NumberOf(a.serial) == Serial.NumberOf(b.serial) == 10
            && Load(oidOf, [a, b], unique).Some?
            && LookupSerial(Load(oidOf, [a, b], unique).value, Serial.Text(10)) == Some(1)
            && Load(oidOf, [a], unique).Some?
            && LookupSerial(Load(oidOf, [a], unique).value, Serial.Text(10)) == None
  {
    hide LoaderAccepts, Serial.Text, Serial.Key, Serial.NumberOf, Serial.IsUpperHex, Load, Indexed, LookupSerial;
    var a, b := ExampleRow("V", "", "0a"), ExampleRow("V", "", "0A").(name := "other");
    TenInDigits();
    ExampleRowLoads(oidOf, "V", "", "0a");
    ExampleRowLoads(oidOf, "V", "", "0A");
    SameExpiryAndSerialLoad(oidOf, ExampleRow("V", "", "0A"), b);
    LoadCorrect(oidOf, [a, b], unique);
    SingleRowLoads(oidOf, a, unique);
    FoundByNumberIff(Load(oidOf, [a, b], unique).value, 1, 10);
    FoundByNumberIff(Load(oidOf, [a], unique).value, 0, 10);
    Serial.TextRoundTrip(10);
    LookupIsNumeric(Load(oidOf, [a], unique).value, Serial.Text(10));
  }

  lemma TenInDigits()
    ensures Serial.NumberOf("0a") == Serial.NumberOf("0A") == 10
    ensures !Serial.IsUpperHex("0a") && Serial.IsUpperHex("0A") && Serial.IsHex("0a")
    ensures Serial.Key("0a") == "a" && Serial.Key("0A") == "A"
  {
    KeyOfTwo('a');
    KeyOfTwo('A');
    NumberOfTwo('a');
    NumberOfTwo('A');
    assert !Serial.IsUpperHexDigit("0a"[1]);
  }

  lemma {:induction false} KeyOfTwo(c: char)
    requires c != '0'
    ensures Serial.Key(['0', c]) == [c]
  {
    assert ['0', c][1..] == [c];
  }

  lemma {:induction false} NumberOfTwo(c: char)
    requires Serial.IsHexDigit(c)
    ensures Serial.IsHex(['0', c]) && Serial.NumberOf(['0', c]) == Serial.DigitValue(c)
  {
    var s := ['0', c];
    assert s[..1] == ['0'] && ['0'][..0] == "";
    assert Serial.Value(['0']) == 16 * Serial.Value("") + Serial.DigitValue('0');
    assert Serial.Value(s) == 16 * Serial.Value(['0']) + Serial.DigitValue(c);
    hide Serial.HexPrefix;
    assert Serial.HexPrefix(s) == s;
  }

  lemma UpperTwo(c: char)
    requires Serial.IsUpperHexDigit(c)
    ensures Serial.IsUpperHex(['0', c])
  {
  }

  lemma SameExpiryAndSerialLoad(oidOf: OidParser, a: Row, b: Row)
    requires LoaderAccepts(oidOf, a)
    requires b.kind == a.kind && b.expiry == a.expiry && b.revoked == a.revoked && b.serial == a.serial
    ensures LoaderAccepts(oidOf, b)
  {
  }

  lemma NewRowNumbered(rows: seq<Row>, cert: Cert)
    requires Numbered(rows)
    ensures Numbered(rows + [NewRow(cert)])
  {
    Serial.TextRoundTrip(cert.serial);
    var r := rows + [NewRow(cert)];
    assert forall i :: 0 <= i < |rows| ==> r[i] == rows[i];
    assert r[|rows|].serial == Serial.Text(cert.serial);
  }

  lemma MarkedNumbered(db: Db, i: nat, revoked: string)
    requires Numbered(db.rows) && i < |db.rows|
    ensures Numbered(Marked(db, i, revoked).rows)
  {
  }

  lemma StepKeepsNumbered(oidOf: OidParser, db: Db, step: Step)
    requires Indexed(db) && Numbered(db.rows)
    ensures Numbered(Apply(oidOf, db, step).rows)
  {
    hide Revoke, CountsAsExpired, Serial.Key, Load, LoaderAccepts, RevocationString, WillRevoke, Serial.IsUpperHex;
    match step
    case IssueStep(cert) =>
      NewRowNumbered(db.rows, cert);
    case RevokeStep(cert, now, kind, arg) =>
      RevokeOutcome(oidOf, db, cert, now, kind, arg);
      EnteredIndexed(db, cert);
      NewRowNumbered(db.rows, cert);
      if WillRevoke(oidOf, db, cert, kind, arg) {
        MarkedNumbered(Entered(db, cert), Target(db, cert), RevocationString(oidOf, now, kind, arg).value);
      }
    case ExpireStep(_) =>
    case ReloadStep => LoadCorrect(oidOf, db.rows, db.unique);
  }

  /** Uppercase unsigned serials stay so over any run, so lookups by number stay exact. */
  lemma {:induction false} RunKeepsNumbered(oidOf: OidParser, db: Db, steps: seq<Step>)
    requires Indexed(db) && Numbered(db.rows)
    ensures Numbered(Run(oidOf, db, steps).rows)
    decreases |steps|
  {
    if steps != [] {
      StepKeepsNumbered(oidOf, db, steps[0]);
      RunKeepsNumbered(oidOf, Apply(oidOf, db, steps[0]), steps[1..]);
    }
  }
}
