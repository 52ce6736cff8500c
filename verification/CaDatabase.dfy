/**
 * The certificate database as ca.c holds it: row objects whose fields are
 * overwritten in place, and two indexes into the stack of rows. Each method is
 * proved against the step of CaModel it carries out.
 */
module CaDatabase {
  import opened CStrings
  import opened Options
  import opened Times
  import opened Expiry
  import opened RevInfo
  import opened CaModel
  import Serial

  class CaRow {
    var kind: string
    var expiry: string
    var revoked: string
    var serial: string
    var file: string
    var name: string

    ghost function View(): Row
      reads this
    {
      Row(kind, expiry, revoked, serial, file, name)
    }

    constructor (row: Row)
      ensures View() == row
    {
      kind, expiry, revoked := row.kind, row.expiry, row.revoked;
      serial, file, name := row.serial, row.file, row.name;
    }

    /** The loader's checks of one row. */
    method Check(oidOf: OidParser) returns (ok: bool)
      ensures ok <==> LoaderAccepts(oidOf, View())
    {
      if At(kind, 0) != 'R' && revoked != "" {
        return false;
      }
      if At(kind, 0) == 'R' && MakeRevoked(oidOf, revoked).None? {
        return false;
      }
      if !TimeOk(expiry) {
        return false;
      }
      ok := CheckSerial(serial);
    }

    /** One turn of the loop in do_updatedb. */
    method ExpireAt(now: string, nowY2k: bool) returns (marked: bool)
      requires nowY2k == Is20xx(now)
      modifies this`kind
      ensures View() == ExpireRow(old(View()), now)
      ensures marked <==> View() != old(View())
    {
      marked := false;
      if At(kind, 0) == 'V' {
        var dbY2k := Is20xx(expiry);
        if dbY2k == nowY2k {
          if Compare(expiry, now) <= 0 {
            kind := "E";
            marked := true;
          }
        } else if !dbY2k && nowY2k {
          kind := "E";
          marked := true;
        }
      }
    }
  }

  class CaDb {
    var data: seq<CaRow>
    const unique: bool
    var bySerial: map<string, nat>
    var byName: map<string, nat>
    ghost var model: Db

    /** The objects agree with the model. */
    ghost predicate Consistent()
      reads this, data
    {
      && model.unique == unique && model.bySerial == bySerial && model.byName == byName
      && |model.rows| == |data|
      && (forall i, j :: 0 <= i < j < |data| ==> data[i] != data[j])
      && (forall i :: 0 <= i < |data| ==> data[i].View() == model.rows[i])
    }

    ghost predicate Valid()
      reads this, data
    {
      Consistent() && Indexed(model)
    }

    /** The rows as TXT_DB_read returns them, not yet checked or indexed. */
    constructor Read(rows: seq<Row>, uniqueSubject: bool)
      ensures Consistent() && fresh(data)
      ensures unique == uniqueSubject && model == Db(rows, uniqueSubject, map[], map[])
    {
      data, unique, bySerial, byName := [], uniqueSubject, map[], map[];
      model := Db([], uniqueSubject, map[], map[]);
      new;
      while |data| < |rows|
        invariant |data| <= |rows| && Consistent() && fresh(data)
        invariant model == Db(rows[..|data|], uniqueSubject, map[], map[])
      {
        var n := |data|;
        var row := new CaRow(rows[n]);
        data := data + [row];
        model := model.(rows := rows[..n + 1]);
      }
      assert rows[..|rows|] == rows;
    }

    /** The checks made on every row before the database is used. */
    method CheckRows(oidOf: OidParser) returns (bad: Option<nat>)
      requires Consistent()
      ensures bad.None? <==> Accepted(oidOf, model.rows)
      ensures bad.Some? ==> bad.value < |data| && !LoaderAccepts(oidOf, model.rows[bad.value])
      ensures bad.Some? ==> forall i :: 0 <= i < bad.value ==> LoaderAccepts(oidOf, model.rows[i])
    {
      hide LoaderAccepts;
      var i := 0;
      while i < |data|
        invariant 0 <= i <= |data|
        invariant forall k :: 0 <= k < i ==> LoaderAccepts(oidOf, model.rows[k])
      {
        var ok := data[i].Check(oidOf);
        if !ok {
          return Some(i);
        }
        i := i + 1;
      }
      bad := None;
    }

    /** TXT_DB_create_index on the serial number. */
    method CreateSerialIndex() returns (index: Option<map<string, nat>>)
      requires Consistent()
      ensures index == SerialIndex(model.rows)
    {
      var m: map<string, nat> := map[];
      var i := 0;
      while i < |data|
        invariant 0 <= i <= |data|
        invariant SerialIndex(model.rows[..i]) == Some(m)
      {
        var key := Serial.Key(data[i].serial);
        assert model.rows[..i + 1][..i] == model.rows[..i] && data[i].View() == model.rows[i];
        if key in m {
          PrefixFails(model.rows, i + 1);
          return None;
        }
        m := m[key := i];
        i := i + 1;
      }
      assert model.rows[..i] == model.rows;
      index := Some(m);
    }

    /** TXT_DB_create_index on the name, with index_name_qual. */
    method CreateNameIndex() returns (index: Option<map<string, nat>>)
      requires Consistent()
      ensures index == NameIndex(model.rows)
    {
      var m: map<string, nat> := map[];
      var i := 0;
      while i < |data|
        invariant 0 <= i <= |data|
        invariant NameIndex(model.rows[..i]) == Some(m)
      {
        assert model.rows[..i + 1][..i] == model.rows[..i] && data[i].View() == model.rows[i];
        if At(data[i].kind, 0) == 'V' {
          if data[i].name in m {
            PrefixFails(model.rows, i + 1);
            return None;
          }
          m := m[data[i].name := i];
        }
        i := i + 1;
      }
      assert model.rows[..i] == model.rows;
      index := Some(m);
    }

    /** index_index: fails on a clash, and otherwise leaves the indexes the model says. */
    method IndexIndex() returns (ok: bool)
      requires Consistent()
      modifies this`bySerial, this`byName, this`model
      ensures Consistent() && model.rows == old(model.rows)
      ensures ok <==> Index(model.rows, unique).Some?
      ensures ok ==> Valid() && model == Index(model.rows, unique).value
    {
      hide SerialIndex, NameIndex, Indexed;
      IndexIsIndexed(model.rows, unique);
      var serials := CreateSerialIndex();
      if serials.None? {
        return false;
      }
      var names: Option<map<string, nat>> := Some(map[]);
      if unique {
        names := CreateNameIndex();
        if names.None? {
          return false;
        }
      }
      bySerial, byName := serials.value, names.value;
      model := Index(model.rows, unique).value;
      ok := true;
    }

    /** TXT_DB_get_by_index on the name. */
    method GetByName(name: Option<string>) returns (row: Option<nat>)
      requires Consistent()
      ensures row == LookupName(model, name)
    {
      row := if name.Some? && name.value in byName then Some(byName[name.value]) else None;
    }

    /** TXT_DB_get_by_index on the serial number. */
    method GetBySerial(serial: string) returns (row: Option<nat>)
      requires Consistent()
      ensures row == LookupSerial(model, serial)
    {
      var key := Serial.Key(serial);
      row := if key in bySerial then Some(bySerial[key]) else None;
    }

    /** TXT_DB_insert: nothing happens on a clash. */
    method InsertRow(row: CaRow) returns (ok: bool)
      requires Valid() && row !in data
      modifies this`data, this`bySerial, this`byName, this`model
      ensures Valid()
      ensures ok <==> Insert(old(model), row.View()).Some?
      ensures ok ==> data == old(data) + [row] && model == Insert(old(model), row.View()).value
      ensures !ok ==> data == old(data) && model == old(model)
    {
      hide Serial.Key, Insert, Indexed;
      var key := Serial.Key(row.serial);
      var qualifies := unique && At(row.kind, 0) == 'V';
      InsertCases(model, row.View());
      if key in bySerial || (qualifies && row.name in byName) {
        return false;
      }
      model := Insert(model, row.View()).value;
      bySerial := bySerial[key := |data|];
      if qualifies {
        byName := byName[row.name := |data|];
      }
      data := data + [row];
      ok := true;
    }

    /**
     * The database part of do_body: -1 on a clash, 0 when the operator declines
     * to sign, 1 when the row is entered.
     */
    method IssueCert(cert: Cert, sign: bool) returns (code: int)
      requires Valid()
      modifies this`data, this`bySerial, this`byName, this`model
      ensures Valid()
      ensures code in {-1, 0, 1}
      ensures code == -1 <==>
                || LookupSerial(old(model), Serial.Text(cert.serial)).Some?
                || (sign && Issue(old(model), cert).None?)
      ensures code == 1 <==> sign && Issue(old(model), cert).Some?
      ensures code == 1 ==> model == Issue(old(model), cert).value
      ensures code == 0 ==> !sign
      ensures code != 1 ==> data == old(data) && model == old(model)
      ensures old(data) <= data && forall i :: |old(data)| <= i < |data| ==> fresh(data[i])
    {
      hide Serial.Key, Serial.Text, Insert, Indexed, Consistent;
      IssueRestsOnInsert(model, cert);
      var rrow: Option<nat> := None;
      if unique {
        rrow := GetByName(None);
      }
      if rrow.None? {
        rrow := GetBySerial(Serial.Text(cert.serial));
      }
      if rrow.Some? {
        return -1;
      }
      if !sign {
        return 0;
      }
      var irow := new CaRow(NewRow(cert));
      var ok := InsertRow(irow);
      if !ok {
        return -1;
      }
      code := 1;
    }

    /** do_revoke, with its second call for a certificate that had to be entered. */
    method RevokeCert(oidOf: OidParser, cert: Cert, now: Instant, kind: int, arg: string) returns (ok: bool)
      requires Valid() && now.Valid() && IsCString(arg)
      modifies this`data, this`bySerial, this`byName, this`model, data
      ensures Valid()
      ensures (model, ok) == Revoke(oidOf, old(model), cert, now, kind, arg)
      ensures old(data) <= data && forall i :: |old(data)| <= i < |data| ==> fresh(data[i])
      decreases if LookupSerial(model, Serial.Text(cert.serial)).Some? then 0 else 1
    {
      hide Revoke, RevocationString, Serial.Text, Serial.Key, Insert, Indexed, Consistent;
      RevokeUnfolded(oidOf, model, cert, now, kind, arg);
      var found := GetBySerial(Serial.Text(cert.serial));
      if found.None? {
        var irow := new CaRow(NewRow(cert));
        var inserted := InsertRow(irow);
        if !inserted {
          return false;
        }
        assert LookupSerial(model, Serial.Text(cert.serial)).Some?;
        ok := RevokeCert(oidOf, cert, now, kind, arg);
        return;
      }
      ok := RevokeFound(oidOf, cert, found.value, now, kind, arg);
    }

    /** The branches of do_revoke for a certificate whose row is found. */
    method RevokeFound(oidOf: OidParser, cert: Cert, i: nat, now: Instant, kind: int, arg: string) returns (ok: bool)
      requires Valid() && now.Valid() && IsCString(arg)
      requires LookupSerial(model, Serial.Text(cert.serial)) == Some(i)
      modifies this`model, data
      ensures Valid() && data == old(data)
      ensures (model, ok) == Revoke(oidOf, old(model), cert, now, kind, arg)
    {
      hide Revoke, RevocationString, Serial.Text, Serial.Key, Indexed;
      RevokeUnfolded(oidOf, model, cert, now, kind, arg);
      var rrow := data[i];
      assert rrow.View() == model.rows[i];
      if cert.name != rrow.name {
        return false;
      }
      if At(rrow.kind, 0) == 'R' {
        return false;
      }
      var revStr := RevocationText(oidOf, now, kind, arg);
      if revStr.None? {
        return false;
      }
      MarkedIndexed(model, i, revStr.value);
      rrow.kind := "R";
      rrow.revoked := revStr.value;
      model := Marked(model, i, revStr.value);
      ok := true;
    }

    /** do_updatedb: marks what has expired and returns how many rows that was. */
    method UpdateDb(now: Instant) returns (cnt: nat)
      requires Valid() && now.IsUtc()
      modifies this`model, data
      ensures Valid() && data == old(data)
      ensures model == Expire(old(model), now)
      ensures cnt == |ChangedRows(old(model).rows, model.rows)|
    {
      var text := UtcText(now);
      ghost var changed;
      cnt, changed := MarkExpired(text, Is20xx(text));
      ExpireSummary(model, now, changed);
      model := Expire(model, now);
    }

    /** The loop of do_updatedb over the row objects. */
    method MarkExpired(text: string, nowY2k: bool) returns (cnt: nat, ghost changed: set<nat>)
      requires Consistent() && nowY2k == Is20xx(text)
      modifies data
      ensures data == old(data) && model == old(model)
      ensures |model.rows| == |data|
      ensures forall k :: 0 <= k < |data| ==> data[k].View() == ExpireRow(model.rows[k], text)
      ensures forall k :: k in changed <==> 0 <= k < |data| && model.rows[k] != ExpireRow(model.rows[k], text)
      ensures cnt == |changed|
    {
      hide ExpireRow, CaRow.View, Is20xx, Consistent;
      ghost var rows := model.rows;
      ApartAndViewed();
      cnt, changed := 0, {};
      var i := 0;
      while i < |data|
        invariant 0 <= i <= |data|
        invariant forall k :: 0 <= k < i ==> data[k].View() == ExpireRow(rows[k], text)
        invariant forall k :: i <= k < |data| ==> data[k].View() == rows[k]
        invariant forall k :: k in changed <==> 0 <= k < i && rows[k] != ExpireRow(rows[k], text)
        invariant cnt == |changed|
      {
        var marked := data[i].ExpireAt(text, nowY2k);
        if marked {
          cnt := cnt + 1;
          changed := changed + {i};
        }
        i := i + 1;
      }
    }

    lemma ApartAndViewed()
      requires Consistent()
      ensures |model.rows| == |data| && forall i :: 0 <= i < |data| ==> data[i].View() == model.rows[i]
      ensures forall i, j :: 0 <= i < |data| && 0 <= j < |data| && i != j ==> data[i] != data[j]
    {
    }

    /**
     * get_certificate_status: the row type found under a serial number, with 1
     * for the types it knows and -1 otherwise.
     */
    method GetCertificateStatus(serial: string) returns (code: int, kind: Option<char>)
      requires Valid() && IsCString(serial)
      ensures kind.Some? <==> LookupSerial(model, Normalized(serial)).Some?
      ensures kind.Some? ==> kind.value == Kind(model.rows[LookupSerial(model, Normalized(serial)).value])
      ensures code == (if kind.Some? && kind.value in {'V', 'R', 'E', 'S'} then 1 else -1)
      ensures Serial.IsHex(serial) ==>
                match kind
                case Some(c) =>
                  exists i ::
                    0 <= i < |model.rows| && HasNumber(model.rows[i], Serial.Value(serial)) && Kind(model.rows[i]) == c
                case None => forall i :: 0 <= i < |model.rows| ==> !HasNumber(model.rows[i], Serial.Value(serial))
    {
      var buf := Serial.NormalizeSerial(serial);
      var row := ReadString(buf, 0, Normalized(serial));
      StatusIsNumeric(model, serial);
      var key := Serial.Key(row);
      if key !in bySerial {
        return -1, None;
      }
      assert data[bySerial[key]].View() == model.rows[bySerial[key]];
      kind := Some(At(data[bySerial[key]].kind, 0));
      code := if kind.value in {'V', 'R', 'E', 'S'} then 1 else -1;
    }
  }

  /** The text of a new revocation entry. */
  method RevocationText(oidOf: OidParser, now: Instant, kind: int, arg: string) returns (text: Option<string>)
    requires now.Valid() && IsCString(arg)
    ensures text == RevocationString(oidOf, now, kind, arg)
  {
    var str := MakeRevocationStr(oidOf, now, kind, arg);
    if str == null {
      return None;
    }
    var s := ReadString(str, 0, RevocationString(oidOf, now, kind, arg).value);
    text := Some(s);
  }

  function Normalized(serial: string): string {
    Serial.Upper(Serial.Padded(serial))
  }

  /** Whatever the case and length of the digits given, the status lookup finds exactly the row with that number. */
  lemma StatusIsNumeric(db: Db, serial: string)
    requires Indexed(db)
    ensures Serial.IsHex(serial) ==>
              forall i: nat :: i < |db.rows| ==>
                (HasNumber(db.rows[i], Serial.Value(serial)) <==> LookupSerial(db, Normalized(serial)) == Some(i))
  {
    if Serial.IsHex(serial) {
      Serial.NormalizedIsNumeric(serial);
      LookupIsNumeric(db, Normalized(serial));
    }
  }

  method CheckSerial(serial: string) returns (ok: bool)
    ensures ok <==> SerialOk(serial)
  {
    var p, j := 0, |serial|;
    if At(serial, 0) == '-' && serial != "" {
      p, j := 1, j - 1;
    }
    if j % 2 == 1 || j < 2 {
      return false;
    }
    ghost var start := p;
    while p < |serial|
      invariant start <= p <= |serial|
      invariant forall k :: start <= k < p ==> Serial.IsHexDigit(serial[k])
    {
      if !Serial.IsHexDigit(serial[p]) {
        assert serial[start..][p - start] == serial[p];
        return false;
      }
      p := p + 1;
    }
    ok := true;
  }

  lemma {:induction false} PrefixFails(rows: seq<Row>, n: nat)
    requires n <= |rows|
    ensures SerialIndex(rows[..n]).None? ==> SerialIndex(rows).None?
    ensures NameIndex(rows[..n]).None? ==> NameIndex(rows).None?
    decreases |rows|
  {
    if n == |rows| {
      assert rows[..n] == rows;
    } else {
      var front := rows[..|rows| - 1];
      assert front[..n] == rows[..n];
      PrefixFails(front, n);
    }
  }

  lemma IndexIsIndexed(rows: seq<Row>, unique: bool)
    ensures Index(rows, unique).Some? ==> Indexed(Index(rows, unique).value)
  {
    SerialIndexCorrect(rows);
    NameIndexCorrect(rows);
  }

  lemma ExpireSummary(db: Db, now: Instant, changed: set<nat>)
    requires Indexed(db) && now.Valid()
    requires forall k :: k in changed <==> 0 <= k < |db.rows| && db.rows[k] != ExpireRow(db.rows[k], UtcText(now))
    ensures Indexed(Expire(db, now))
    ensures changed == ChangedRows(db.rows, Expire(db, now).rows)
    ensures |Expire(db, now).rows| == |db.rows|
    ensures forall k :: 0 <= k < |db.rows| ==> Expire(db, now).rows[k] == ExpireRow(db.rows[k], UtcText(now))
  {
  }

  lemma RevokeUnfolded(oidOf: OidParser, db: Db, cert: Cert, now: Instant, kind: int, arg: string)
    requires Indexed(db) && now.Valid()
    ensures var found := LookupSerial(db, Serial.Text(cert.serial));
            var inserted := Insert(db, NewRow(cert));
            && (found.None? && inserted.None? ==> Revoke(oidOf, db, cert, now, kind, arg) == (db, false))
            && (found.None? && inserted.Some? ==>
                  && Indexed(inserted.value)
                  && LookupSerial(inserted.value, Serial.Text(cert.serial)).Some?
                  && Revoke(oidOf, db, cert, now, kind, arg) == Revoke(oidOf, inserted.value, cert, now, kind, arg))
            && (found.Some? ==>
                  && found.value < |db.rows|
                  && Revoke(oidOf, db, cert, now, kind, arg) ==
                    var row, str := db.rows[found.value], RevocationString(oidOf, now, kind, arg);
                    if row.name != cert.name || Kind(row) == 'R' || str.None? then (db, false)
                    else (Marked(db, found.value, str.value), true))
  {
    if Insert(db, NewRow(cert)).Some? {
      InsertKeepsIndexes(db, NewRow(cert));
    }
  }

  /** The cases of an insertion. */
  lemma InsertCases(db: Db, row: Row)
    requires Indexed(db)
    ensures var r, key, n := Insert(db, row), Serial.Key(row.serial), |db.rows|;
            var qualifies := db.unique && Kind(row) == 'V';
            && (r.None? <==> key in db.bySerial || (qualifies && row.name in db.byName))
            && (r.Some? ==>
                  && Indexed(r.value) && r.value.rows == db.rows + [row] && r.value.unique == db.unique
                  && r.value.bySerial == db.bySerial[key := n]
                  && r.value.byName == if qualifies then db.byName[row.name := n] else db.byName)
  {
    hide Serial.Key;
    if Insert(db, row).Some? {
      InsertKeepsIndexes(db, row);
    }
  }
}
