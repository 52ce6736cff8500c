/**
 * Whole runs of ca over the files: load, change, save and rotate, with a crash
 * or a failing call at any point, and then the next run on what is left.
 */
module Commit {
  import opened Expiry
  import opened Options
  import opened Times
  import opened RevInfo
  import opened CaModel
  import opened CaDatabase
  import opened DiskModel
  import opened FileSystem
  import Serial

  /**
   * The names of the files, and unique_subject where no attribute file says
   * otherwise. `agreed` is not read by the program: it says whether attribute
   * files are promised to say the same.
   */
  datatype Config = Config(dbfile: string, serialfile: string, unique: bool, agreed: bool) {
    /** Whether unique_subject is on for good. */
    predicate Strict() {
      agreed && unique
    }

    predicate Fits(uniqueSubject: bool) {
      agreed ==> uniqueSubject == unique
    }

    function Index(): IndexPaths {
      PathsOf(dbfile, "new", "old")
    }

    function SerialNew(): string {
      Suffixed(serialfile, "new")
    }

    function SerialOld(): string {
      Suffixed(serialfile, "old")
    }

    /** The serial files are none of the index files. */
    predicate Separate() {
      serialfile !in Index().All() && SerialNew() !in Index().All() && SerialOld() !in Index().All()
    }
  }

  // ----- issuing a batch -----

  /** A request: the operator may decline to sign it. */
  datatype Request = Request(name: string, expiry: string, sign: bool)

  /**
   * The certification loop: each certificate takes the current serial number,
   * which then grows by one; a clash abandons the batch.
   */
  function IssueBatch(db: Db, serial: nat, requests: seq<Request>): Option<(Db, nat)>
    decreases |requests|
  {
    if requests == [] then Some((db, serial)) else
      var r := requests[0];
      var cert := Cert(serial, r.name, r.expiry);
      if LookupSerial(db, Serial.Text(serial)).Some? then None
      else if !r.sign then IssueBatch(db, serial, requests[1..])
      else
        match Issue(db, cert)
        case None => None
        case Some(db') => IssueBatch(db', serial + 1, requests[1..])
  }

  /** Every row has a number below `n`. */
  ghost predicate Below(rows: seq<Row>, n: nat) {
    forall i :: 0 <= i < |rows| ==> Serial.NumberOf(rows[i].serial) < n
  }

  predicate RequestsSound(requests: seq<Request>) {
    forall i :: 0 <= i < |requests| ==> TimeOk(requests[i].expiry)
  }

  lemma BelowAppend(rows: seq<Row>, n: nat, cert: Cert)
    requires Below(rows, n) && cert.serial == n
    ensures Below(rows + [NewRow(cert)], n + 1)
  {
    Serial.TextRoundTrip(n);
    Serial.UpperNumberOf(Serial.Text(n));
    var r := rows + [NewRow(cert)];
    assert forall i :: 0 <= i < |rows| ==> r[i] == rows[i];
    assert r[|rows|].serial == Serial.Text(n);
  }

  /** Above every number in the database the next number is free: no request is ever refused for its serial. */
  lemma NextSerialIsFree(db: Db, n: nat)
    requires Indexed(db) && Below(db.rows, n)
    ensures LookupSerial(db, Serial.Text(n)).None?
  {
    Serial.TextRoundTrip(n);
    LookupIsNumeric(db, Serial.Text(n));
    forall i | 0 <= i < |db.rows| ensures !HasNumber(db.rows[i], n) {
      if Serial.IsUpperHex(db.rows[i].serial) {
        Serial.UpperNumberOf(db.rows[i].serial);
      }
    }
  }

  lemma IssueAppends(oidOf: OidParser, db: Db, cert: Cert)
    requires Indexed(db) && Issue(db, cert).Some?
    ensures var r := Issue(db, cert).value;
            Indexed(r) && r.rows == db.rows + [NewRow(cert)] && r.unique == db.unique
    ensures Accepted(oidOf, db.rows) && TimeOk(cert.expiry) ==> Accepted(oidOf, Issue(db, cert).value.rows)
  {
    IssueRestsOnInsert(db, cert);
    InsertKeepsIndexes(db, NewRow(cert));
    NewRowAccepted(oidOf, cert);
    AppendAccepted(oidOf, db.rows, NewRow(cert));
  }

  /**
   * A batch appends one row for each certificate it signs, and keeps the next
   * serial number above all of them.
   */
  lemma {:induction false} BatchKeeps(oidOf: OidParser, db: Db, serial: nat, requests: seq<Request>)
    requires Indexed(db) && Accepted(oidOf, db.rows) && Below(db.rows, serial) && RequestsSound(requests)
    requires IssueBatch(db, serial, requests).Some?
    ensures var (r, next) := IssueBatch(db, serial, requests).value;
            && Indexed(r) && r.unique == db.unique && Accepted(oidOf, r.rows)
            && db.rows <= r.rows && |r.rows| - |db.rows| == next - serial
            && serial <= next && Below(r.rows, next)
            && (serial < next ==> HasNumber(r.rows[|db.rows|], serial))
    decreases |requests|
  {
    hide Serial.Key, Serial.Text, LoaderAccepts, Insert, Issue, TimeOk, LookupSerial, IssueBatch, Indexed, Accepted,
      Serial.IsUpperHex;
    if requests == [] {
      BatchEnd(db, serial);
    } else {
      BatchStep(db, serial, requests);
    }
    if requests != [] {
      var cert := Cert(serial, requests[0].name, requests[0].expiry);
      assert forall i :: 0 <= i < |requests[1..]| ==> requests[1..][i] == requests[i + 1];
      if requests[0].sign {
        var db' := Issue(db, cert).value;
        IssueAppends(oidOf, db, cert);
        BelowAppend(db.rows, serial, cert);
        Serial.TextRoundTrip(serial);
        BatchKeeps(oidOf, db', serial + 1, requests[1..]);
        assert db'.rows[|db.rows|] == NewRow(cert);
      } else {
        BatchKeeps(oidOf, db, serial, requests[1..]);
      }
    }
  }

  /** The requests the operator signs. */
  function Signed(requests: seq<Request>): (r: seq<Request>) {
    if requests == [] then [] else (if requests[0].sign then [requests[0]] else []) + Signed(requests[1..])
  }

  /** The k-th certificate a batch issues. */
  function BatchCert(serial: nat, requests: seq<Request>, k: nat): Cert
    requires k < |Signed(requests)|
  {
    Cert(serial + k, Signed(requests)[k].name, Signed(requests)[k].expiry)
  }

  /**
   * The rows a batch adds are those of the signed requests, in order, numbered
   * one by one from the serial number on; the rows before stay.
   */
  lemma {:induction false} BatchRows(db: Db, serial: nat, requests: seq<Request>)
    requires Indexed(db) && IssueBatch(db, serial, requests).Some?
    ensures var (r, next) := IssueBatch(db, serial, requests).value;
            && next == serial + |Signed(requests)| && |r.rows| == |db.rows| + |Signed(requests)|
            && r.rows[..|db.rows|] == db.rows
            && forall k :: 0 <= k < |Signed(requests)| ==>
                 IssuedFor(r.rows[|db.rows| + k], BatchCert(serial, requests, k))
    decreases |requests|
  {
    hide IssueBatch, Issue, Indexed, IssuedFor;
    if requests == [] {
      BatchEnd(db, serial);
    } else {
      BatchStep(db, serial, requests);
      var more := requests[1..];
      if requests[0].sign {
        var cert := Cert(serial, requests[0].name, requests[0].expiry);
        var db' := Issue(db, cert).value;
        IssueAddsRow(db, cert);
        IssueIndexed(db, cert);
        BatchRows(db', serial + 1, more);
        var r := IssueBatch(db, serial, requests).value.0;
        assert r.rows[..|db.rows|] == r.rows[..|db'.rows|][..|db.rows|];
        assert r.rows[|db.rows|] == r.rows[..|db'.rows|][|db.rows|] == db'.rows[|db.rows|];
        forall k | 0 <= k < |Signed(requests)|
          ensures IssuedFor(r.rows[|db.rows| + k], BatchCert(serial, requests, k))
        {
          if k > 0 {
            assert BatchCert(serial, requests, k) == BatchCert(serial + 1, more, k - 1);
            assert r.rows[|db.rows| + k] == r.rows[|db'.rows| + (k - 1)];
          } else {
            assert BatchCert(serial, requests, 0) == cert;
          }
        }
      } else {
        BatchRows(db, serial, more);
        assert Signed(requests) == Signed(more);
        assert forall k :: 0 <= k < |Signed(more)| ==> BatchCert(serial, requests, k) == BatchCert(serial, more, k);
      }
    }
  }

  /** Under unique_subject, the names of the signed requests are new and differ. */
  ghost predicate NamesFree(db: Db, signed: seq<Request>) {
    db.unique ==>
      && (forall k :: 0 <= k < |signed| ==> signed[k].name !in db.byName)
      && (forall j, k :: 0 <= j < k < |signed| ==> signed[j].name != signed[k].name)
  }

  /** With the serial number above all rows, a batch succeeds exactly when the names are free. */
  lemma {:induction false} BatchSucceedsIff(db: Db, serial: nat, requests: seq<Request>)
    requires Indexed(db) && Below(db.rows, serial)
    ensures IssueBatch(db, serial, requests).Some? <==> NamesFree(db, Signed(requests))
    decreases |requests|
  {
    hide IssueBatch, Issue, Indexed, IssuedFor, Below, LookupSerial, Serial.Text;
    if requests == [] {
      BatchEnd(db, serial);
    } else {
      BatchStep(db, serial, requests);
      NextSerialIsFree(db, serial);
      var more, first := requests[1..], requests[0];
      if first.sign {
        var cert := Cert(serial, first.name, first.expiry);
        assert Signed(requests) == [first] + Signed(more);
        IssueCases(db, cert);
        if Issue(db, cert).Some? {
          var db' := Issue(db, cert).value;
          IssueIndexed(db, cert);
          IssueIndexesName(db, cert);
          IssueIsBelow(db, cert);
          BatchSucceedsIff(db', serial + 1, more);
          NamesFreeCons(db, db', first, Signed(more));
        } else {
          assert Signed(requests)[0] == first;
        }
      } else {
        assert Signed(requests) == Signed(more);
        BatchSucceedsIff(db, serial, more);
      }
    }
  }

  lemma IssueIndexesName(db: Db, cert: Cert)
    requires Indexed(db) && Issue(db, cert).Some?
    ensures var r := Issue(db, cert).value;
            r.unique == db.unique && (db.unique ==> r.byName.Keys == db.byName.Keys + {cert.name})
  {
    hide Serial.Key, Serial.Text, Indexed;
  }

  lemma IssueIsBelow(db: Db, cert: Cert)
    requires Indexed(db) && Issue(db, cert).Some? && Below(db.rows, cert.serial)
    ensures Below(Issue(db, cert).value.rows, cert.serial + 1)
  {
    IssueRestsOnInsert(db, cert);
    BelowAppend(db.rows, cert.serial, cert);
  }

  lemma NamesFreeCons(db: Db, next: Db, first: Request, more: seq<Request>)
    requires next.unique == db.unique && (db.unique ==> next.byName.Keys == db.byName.Keys + {first.name})
    requires db.unique ==> first.name !in db.byName
    ensures NamesFree(db, [first] + more) <==> NamesFree(next, more)
  {
    var all := [first] + more;
    assert all[0] == first && forall k :: 0 <= k < |more| ==> all[k + 1] == more[k];
    if db.unique {
      if NamesFree(db, all) {
        forall k | 0 <= k < |more| ensures more[k].name !in next.byName {
          assert all[k + 1].name != all[0].name;
        }
        forall j, k | 0 <= j < k < |more| ensures more[j].name != more[k].name {
          assert all[j + 1].name != all[k + 1].name;
        }
      }
    }
  }

  /** The certification loop on the database object. */
  method CertifyAll(db: CaDb, serial: nat, requests: seq<Request>) returns (ok: bool, next: nat)
    requires db.Valid()
    modifies db`data, db`bySerial, db`byName, db`model
    ensures db.Valid()
    ensures ok <==> IssueBatch(old(db.model), serial, requests).Some?
    ensures ok ==> (db.model, next) == IssueBatch(old(db.model), serial, requests).value
  {
    hide IssueBatch, Issue, Indexed, LookupSerial;
    next := serial;
    var i := 0;
    while i < |requests|
      invariant 0 <= i <= |requests| && db.Valid()
      invariant IssueBatch(old(db.model), serial, requests) == IssueBatch(db.model, next, requests[i..])
    {
      var r := requests[i];
      assert requests[i..][0] == r && requests[i..][1..] == requests[i + 1..];
      BatchStep(db.model, next, requests[i..]);
      var j := db.IssueCert(Cert(next, r.name, r.expiry), r.sign);
      if j < 0 {
        return false, next;
      }
      if j > 0 {
        next := next + 1;
      }
      i := i + 1;
    }
    assert requests[i..] == [];
    BatchEnd(db.model, next);
    ok := true;
  }

  /** The first request of a batch. */
  lemma BatchStep(db: Db, serial: nat, requests: seq<Request>)
    requires requests != []
    ensures var r := requests[0];
            var issued := Issue(db, Cert(serial, r.name, r.expiry));
            IssueBatch(db, serial, requests) ==
              if LookupSerial(db, Serial.Text(serial)).Some? || (r.sign && issued.None?) then None
              else if !r.sign then IssueBatch(db, serial, requests[1..])
              else IssueBatch(issued.value, serial + 1, requests[1..])
  {
  }

  lemma BatchEnd(db: Db, serial: nat)
    ensures IssueBatch(db, serial, []) == Some((db, serial))
  {
  }

  // ----- saving and rotating -----

  function SaveAndRotateIndex(d: Disk, plan: Plan, c: Config, rows: seq<Row>, unique: bool): (Disk, bool) {
    var (d1, saved) := SaveIndex(d, plan, c.dbfile, "new", rows, unique);
    if !saved then (d1, false) else
      var r := RotateIndex(d1, plan, c.dbfile, "new", "old");
      (r.disk, r.ok)
  }

  /**
   * The end of issuing: both files are saved, the certificates are written out,
   * and then the serial file is rotated before the index.
   */
  function CommitIssued(d: Disk, plan: Plan, c: Config, serial: nat, rows: seq<Row>, unique: bool): (Disk, bool) {
    var (d1, savedSerial) := SaveSerial(d, plan, c.serialfile, "new", serial);
    if !savedSerial then (d1, false) else
      var (d2, savedIndex) := SaveIndex(d1, plan, c.dbfile, "new", rows, unique);
      if !savedIndex then (d2, false)
      else if !plan(d2.turn) then (d2.(turn := d2.turn + 1), false)
      else
        var r := RotateSerial(d2.(turn := d2.turn + 1), plan, c.serialfile, "new", "old");
        if !r.ok then (r.disk, false) else
          var q := RotateIndex(r.disk, plan, c.dbfile, "new", "old");
          (q.disk, q.ok)
  }

  /** The end of issuing on the mutable files, stopping at the first failure. */
  method CommitBatch(fs: FileSys, c: Config, next: nat, rows: seq<Row>, unique: bool) returns (ok: bool)
    modifies fs
    ensures (fs.View(), ok) == CommitIssued(old(fs.View()), fs.plan, c, next, rows, unique)
  {
    hide SaveSerial, SaveIndex, RotateSerial, RotateIndex;
    ok := fs.SaveSerial(c.serialfile, "new", next);
    if !ok {
      return;
    }
    ok := fs.SaveIndex(c.dbfile, "new", rows, unique);
    if !ok {
      return;
    }
    ok := fs.Attempt();
    if !ok {
      return;
    }
    ok := fs.RotateSerial(c.serialfile, "new", "old");
    if !ok {
      return;
    }
    ok := fs.RotateIndex(c.dbfile, "new", "old");
  }

  /** A new index and its attributes are live, the former ones set aside, and other files as before. */
  ghost predicate IndexReplaced(c: Config, f: Files, g: Files, rows: seq<Row>, unique: bool)
    requires c.dbfile in f
  {
    var p := c.Index();
    && p.live in g && g[p.live] == IndexFile(rows)
    && p.attr in g && g[p.attr] == AttrFile(unique)
    && p.aside in g && g[p.aside] == f[p.live]
    && (p.attr in f ==> p.attrAside in g && g[p.attrAside] == f[p.attr])
  }

  /**
   * The calls that save and rotate an index, from the t-th on, all work; without
   * live attributes one does not matter.
   */
  ghost predicate IndexCallsWork(c: Config, f: Files, plan: Plan, t: nat) {
    && plan(t) && plan(t + 1) && RotateCallsWork(c, f, plan, t + 2)
  }

  ghost predicate RotateCallsWork(c: Config, f: Files, plan: Plan, t: nat) {
    plan(t) && plan(t + 1) && (c.Index().attr in f ==> plan(t + 2)) && plan(t + 3)
  }

  /** When an index is committed, and what is live and set aside then. */
  lemma SaveAndRotateOutcome(c: Config, d: Disk, plan: Plan, rows: seq<Row>, unique: bool)
    requires c.dbfile in d.files
    ensures var (e, ok) := SaveAndRotateIndex(d, plan, c, rows, unique);
            && (ok <==> |c.dbfile| <= 246 && rows != [] && IndexCallsWork(c, d.files, plan, d.turn))
            && (ok ==>
                  && IndexReplaced(c, d.files, e.files, rows, unique)
                  && SameOutside(d.files, e.files, c.Index().All()))
  {
    hide SaveIndex, RotateIndex;
    SixNamesApart(c.dbfile, "new", "old");
    SaveIndexOutcome(d, plan, c.dbfile, rows, unique);
    var (d1, saved) := SaveIndex(d, plan, c.dbfile, "new", rows, unique);
    if saved {
      RotateIndexOutcome(d1, plan, c.dbfile);
    }
  }

  /**
   * When an issuing run is committed: the names fit, there are rows, and every
   * call works. Then the new index, attributes and serial number are live, and
   * the former ones are set aside.
   */
  lemma CommitIssuedOutcome(c: Config, d: Disk, plan: Plan, next: nat, rows: seq<Row>, unique: bool)
    requires c.Separate() && c.dbfile in d.files && c.serialfile in d.files
    ensures var (e, ok) := CommitIssued(d, plan, c, next, rows, unique);
            var t := d.turn;
            && (ok <==>
                  && |c.serialfile| <= 251 && |c.dbfile| <= 246 && rows != []
                  && plan(t) && plan(t + 1) && plan(t + 2) && plan(t + 3) && plan(t + 4) && plan(t + 5)
                  && RotateCallsWork(c, d.files, plan, t + 6))
            && (ok ==>
                  && IndexReplaced(c, d.files, e.files, rows, unique)
                  && c.serialfile in e.files && e.files[c.serialfile] == SerialFile(next)
                  && c.SerialOld() in e.files && e.files[c.SerialOld()] == d.files[c.serialfile])
  {
    hide SaveSerial, SaveIndex, RotateIndex, RotateSerial, Replaced, SameOutside, Config.Separate, IndexPaths.Apart;
    ConfigNamesApart(c);
    SaveSerialOutcome(d, plan, c.serialfile, next);
    var (d1, ok1) := SaveSerial(d, plan, c.serialfile, "new", next);
    if ok1 {
      SaveIndexOutcome(d1, plan, c.dbfile, rows, unique);
      var (d2, ok2) := SaveIndex(d1, plan, c.dbfile, "new", rows, unique);
      if ok2 {
        var d3 := d2.(turn := d2.turn + 1);
        SavedApart(c, d.files, d1.files, d2.files, next, rows, unique);
        RotateSerialOutcome(d3, plan, c.serialfile);
        var r := RotateSerial(d3, plan, c.serialfile, "new", "old");
        if r.ok {
          SerialApart(c, d2.files, r.disk.files, next);
          RotateIndexOutcome(r.disk, plan, c.dbfile);
          SerialStays(c, r.disk.files, RotateIndex(r.disk, plan, c.dbfile, "new", "old").disk.files);
        }
      }
    }
  }

  /** What is saved is there, and no live file is touched. */
  lemma SavedApart(c: Config, f: Files, f1: Files, f2: Files, next: nat, rows: seq<Row>, unique: bool)
    requires c.Separate() && c.serialfile in f && c.dbfile in f
    requires SameOutside(f, f1, {c.SerialNew()}) && c.SerialNew() in f1 && f1[c.SerialNew()] == SerialFile(next)
    requires SameOutside(f1, f2, {c.Index().incoming, c.Index().attrIncoming})
    ensures c.SerialNew() in f2 && f2[c.SerialNew()] == SerialFile(next)
    ensures c.serialfile in f2 && f2[c.serialfile] == f[c.serialfile]
    ensures c.dbfile in f2 && f2[c.dbfile] == f[c.dbfile]
    ensures c.Index().attr in f2 <==> c.Index().attr in f
    ensures c.Index().attr in f ==> f2[c.Index().attr] == f[c.Index().attr]
  {
    ConfigNamesApart(c);
  }

  /** Rotating the serial file leaves the index files alone. */
  lemma SerialApart(c: Config, f: Files, g: Files, next: nat)
    requires c.Separate() && c.serialfile in f
    requires Replaced(f, g, c.serialfile, c.SerialNew(), c.SerialOld(), SerialFile(next))
    ensures c.serialfile in g && g[c.serialfile] == SerialFile(next)
    ensures c.SerialOld() in g && g[c.SerialOld()] == f[c.serialfile]
    ensures forall q <- c.Index().All() :: (q in g <==> q in f) && (q in f ==> g[q] == f[q])
    ensures c.serialfile !in c.Index().All() && c.SerialOld() !in c.Index().All()
  {
  }

  /** Rotating the index leaves the serial files alone. */
  lemma SerialStays(c: Config, f: Files, g: Files)
    requires c.Separate() && c.serialfile in f && c.SerialOld() in f
    ensures SameOutside(f, g, c.Index().All()) ==>
              && c.serialfile in g && g[c.serialfile] == f[c.serialfile]
              && c.SerialOld() in g && g[c.SerialOld()] == f[c.SerialOld()]
  {
  }

  // ----- a run of the program -----

  datatype Command =
    | IssueCommand(requests: seq<Request>, confirm: bool)
    | UpdateCommand(now: Instant)
    | RevokeCommand(cert: Cert, now: Instant, kind: int, arg: string)

  predicate Runnable(cmd: Command) {
    match cmd
    case IssueCommand(_, _) => true
    case UpdateCommand(now) => now.IsUtc()
    case RevokeCommand(_, now, _, _) => now.Valid()
  }

  type Job = cmd: Command | Runnable(cmd) witness IssueCommand([], true)

  function UniqueSubject(c: Config, files: Files): bool {
    var attr := c.Index().attr;
    if attr in files && files[attr].AttrFile? then files[attr].unique else c.unique
  }

  /** load_index, the row checks and index_index */
  function LoadFiles(oidOf: OidParser, c: Config, files: Files): Option<Db> {
    if c.dbfile in files && files[c.dbfile].IndexFile? then Load(oidOf, files[c.dbfile].rows, UniqueSubject(c, files))
    else None
  }

  /** The files, the database in memory, and whether the run goes on. */
  datatype Progress = Progress(disk: Disk, db: Db, go: bool)

  lemma {:induction false} BatchIndexed(db: Db, serial: nat, requests: seq<Request>)
    requires Indexed(db) && IssueBatch(db, serial, requests).Some?
    ensures Indexed(IssueBatch(db, serial, requests).value.0)
    decreases |requests|
  {
    hide Indexed, Issue;
    if requests != [] {
      var cert := Cert(serial, requests[0].name, requests[0].expiry);
      if requests[0].sign {
        IssueIndexed(db, cert);
        BatchIndexed(Issue(db, cert).value, serial + 1, requests[1..]);
      } else {
        BatchIndexed(db, serial, requests[1..]);
      }
    }
  }

  lemma IssueIndexed(db: Db, cert: Cert)
    requires Indexed(db) && Issue(db, cert).Some?
    ensures Indexed(Issue(db, cert).value)
  {
    IssueRestsOnInsert(db, cert);
    InsertKeepsIndexes(db, NewRow(cert));
  }

  /** One action of a run; what is refused is not written, and ends the run. */
  function Act(oidOf: OidParser, c: Config, d: Disk, plan: Plan, db: Db, cmd: Job): (r: Progress)
    requires Indexed(db)
    ensures Indexed(r.db)
  {
    match cmd
    case IssueCommand(requests, confirm) =>
      if c.serialfile !in d.files || !d.files[c.serialfile].SerialFile? then Progress(d, db, false) else
        var serial := d.files[c.serialfile].next;
        (match IssueBatch(db, serial, requests)
         case None => Progress(d, db, false)
         case Some((db', next)) =>
           BatchIndexed(db, serial, requests);
           if next == serial then Progress(d, db', true)
           else if !confirm then Progress(d, db', false)
           else
             var (d', ok) := CommitIssued(d, plan, c, next, db'.rows, db.unique);
             Progress(d', db', ok))
    case UpdateCommand(now) =>
      var db' := Expire(db, now);
      if ChangedRows(db.rows, db'.rows) == {} then Progress(d, db', true)
      else
        var (d', ok) := SaveAndRotateIndex(d, plan, c, db'.rows, db.unique);
        Progress(d', db', ok)
    case RevokeCommand(cert, now, kind, arg) =>
      var (db', revoked) := Revoke(oidOf, db, cert, now, kind, arg);
      if !revoked then Progress(d, db', false)
      else
        var (d', ok) := SaveAndRotateIndex(d, plan, c, db'.rows, db.unique);
        Progress(d', db', ok)
  }

  /** The actions of one run, on one database in memory. */
  function Actions(oidOf: OidParser, c: Config, d: Disk, plan: Plan, db: Db, cmds: seq<Job>): Disk
    requires Indexed(db)
    decreases |cmds|
  {
    if cmds == [] then d else
      var p := Act(oidOf, c, d, plan, db, cmds[0]);
      if !p.go then p.disk else Actions(oidOf, c, p.disk, plan, p.db, cmds[1..])
  }

  function Session(oidOf: OidParser, c: Config, d: Disk, plan: Plan, cmds: seq<Job>): Disk {
    match LoadFiles(oidOf, c, d.files)
    case None => d
    case Some(db) =>
      LoadCorrect(oidOf, d.files[c.dbfile].rows, UniqueSubject(c, d.files));
      Actions(oidOf, c, d, plan, db, cmds)
  }

  // ----- what an action leaves in the files -----

  /** What the files hold is what is in memory, unique_subject included. */
  ghost predicate InSync(c: Config, f: Files, db: Db) {
    c.dbfile in f && f[c.dbfile] == IndexFile(db.rows) && UniqueSubject(c, f) == db.unique
  }

  /** An attribute file decides on unique_subject, and the configuration only where there is none. */
  lemma AttributesDecide(c: Config, f: Files, u: bool)
    ensures c.Index().attr in f && f[c.Index().attr] == AttrFile(u) ==> UniqueSubject(c, f) == u
    ensures c.Index().attr !in f ==> UniqueSubject(c, f) == c.unique
  {
  }

  /** Loading leaves memory in step with the files. */
  lemma LoadedInSync(oidOf: OidParser, c: Config, f: Files)
    ensures LoadFiles(oidOf, c, f).Some? ==> InSync(c, f, LoadFiles(oidOf, c, f).value)
  {
    hide Load;
    if LoadFiles(oidOf, c, f).Some? {
      LoadCorrect(oidOf, f[c.dbfile].rows, UniqueSubject(c, f));
    }
  }

  /**
   * An action after which the run goes on leaves its database live, so that the
   * next run loads the same rows. One with nothing to save, or that is refused,
   * leaves the files alone; any other goes on exactly if every call works that
   * saves it.
   */
  lemma ActOutcome(oidOf: OidParser, c: Config, d: Disk, plan: Plan, db: Db, cmd: Job)
    requires Indexed(db) && c.Separate() && InSync(c, d.files, db)
    ensures var p := Act(oidOf, c, d, plan, db, cmd);
            && p.db.unique == db.unique
            && (p.go ==> InSync(c, p.disk.files, p.db))
            && (!ToBeSaved(oidOf, c, d.files, db, cmd) ==> p.disk == d)
            && (ToBeSaved(oidOf, c, d.files, db, cmd) ==> (p.go <==> CommitWorks(c, d, plan, cmd)))
  {
    hide Revoke, Expire, IssueBatch, Indexed, InSync, CommitWorks, Act;
    match cmd
    case IssueCommand(requests, confirm) => ActIssues(oidOf, c, d, plan, db, requests, confirm);
    case UpdateCommand(now) => ActUpdates(oidOf, c, d, plan, db, now);
    case RevokeCommand(cert, now, kind, arg) => ActRevokes(oidOf, c, d, plan, db, cert, now, kind, arg);
  }

  /** Issuing: the batch is live, and the serial file has the number after it. */
  lemma ActIssues(oidOf: OidParser, c: Config, d: Disk, plan: Plan, db: Db, requests: seq<Request>, confirm: bool)
    requires Indexed(db) && c.Separate() && InSync(c, d.files, db)
    ensures var cmd: Job := IssueCommand(requests, confirm);
            var p := Act(oidOf, c, d, plan, db, cmd);
            && p.db.unique == db.unique
            && (!ToBeSaved(oidOf, c, d.files, db, cmd) ==> p.disk == d)
            && (ToBeSaved(oidOf, c, d.files, db, cmd) ==> (p.go <==> CommitWorks(c, d, plan, cmd)))
            && (SerialLive(c, d.files) && IssueBatch(db, d.files[c.serialfile].next, requests).Some? &&
                Signed(requests) == [] ==>
                  p.go && p.db == db)
            && (p.go ==>
                  && InSync(c, p.disk.files, p.db)
                  && SerialLive(c, d.files) && SerialLive(c, p.disk.files)
                  && IssueBatch(db, d.files[c.serialfile].next, requests) ==
                       Some((p.db, p.disk.files[c.serialfile].next)))
  {
    hide CommitIssued, IssueBatch, Indexed;
    if SerialLive(c, d.files) {
      var n := d.files[c.serialfile].next;
      if IssueBatch(db, n, requests).Some? {
        var (db', next) := IssueBatch(db, n, requests).value;
        BatchLonger(db, n, requests);
        CommitIssuedOutcome(c, d, plan, next, db'.rows, db.unique);
      }
    }
  }

  ghost predicate SerialLive(c: Config, f: Files) {
    c.serialfile in f && f[c.serialfile].SerialFile?
  }

  lemma ActUpdates(oidOf: OidParser, c: Config, d: Disk, plan: Plan, db: Db, now: Instant)
    requires Indexed(db) && c.Separate() && InSync(c, d.files, db) && now.IsUtc()
    ensures var cmd: Job := UpdateCommand(now);
            var p := Act(oidOf, c, d, plan, db, cmd);
            && p.db == Expire(db, now) && p.db.unique == db.unique
            && (!ToBeSaved(oidOf, c, d.files, db, cmd) ==> p.disk == d && p.go)
            && (ToBeSaved(oidOf, c, d.files, db, cmd) ==> (p.go <==> CommitWorks(c, d, plan, cmd)))
            && (p.go ==> InSync(c, p.disk.files, p.db))
  {
    hide SaveAndRotateIndex, Expire, Indexed;
    ExpireChanges(db, now);
    SaveAndRotateOutcome(c, d, plan, Expire(db, now).rows, db.unique);
  }

  lemma ActRevokes(oidOf: OidParser, c: Config, d: Disk, plan: Plan, db: Db,
                   cert: Cert, now: Instant, kind: int, arg: string)
    requires Indexed(db) && c.Separate() && InSync(c, d.files, db) && now.Valid()
    ensures var cmd: Job := RevokeCommand(cert, now, kind, arg);
            var p := Act(oidOf, c, d, plan, db, cmd);
            && p.db == Revoke(oidOf, db, cert, now, kind, arg).0 && p.db.unique == db.unique
            && (!ToBeSaved(oidOf, c, d.files, db, cmd) ==> p.disk == d && !p.go)
            && (ToBeSaved(oidOf, c, d.files, db, cmd) ==> (p.go <==> CommitWorks(c, d, plan, cmd)))
            && (p.go ==> InSync(c, p.disk.files, p.db))
  {
    hide SaveAndRotateIndex, Revoke, Indexed;
    RevokeKeepsUnique(oidOf, db, cert, now, kind, arg);
    RevokeLeavesRows(oidOf, db, cert, now, kind, arg);
    SaveAndRotateOutcome(c, d, plan, Revoke(oidOf, db, cert, now, kind, arg).0.rows, db.unique);
  }

  /** Whether an action changes the database and may be saved. */
  ghost predicate ToBeSaved(oidOf: OidParser, c: Config, f: Files, db: Db, cmd: Job)
    requires Indexed(db)
  {
    match cmd
    case IssueCommand(requests, confirm) =>
      && confirm && c.serialfile in f && f[c.serialfile].SerialFile?
      && IssueBatch(db, f[c.serialfile].next, requests).Some?
      && Signed(requests) != []
    case UpdateCommand(now) =>
      exists i :: 0 <= i < |db.rows| && Kind(db.rows[i]) == 'V' && CountsAsExpired(db.rows[i].expiry, UtcText(now))
    case RevokeCommand(cert, now, kind, arg) => WillRevoke(oidOf, db, cert, kind, arg)
  }

  /** Whether everything works that saves it. */
  ghost predicate CommitWorks(c: Config, d: Disk, plan: Plan, cmd: Job) {
    var t := d.turn;
    && |c.dbfile| <= 246
    && if cmd.IssueCommand? then
         && |c.serialfile| <= 251
         && plan(t) && plan(t + 1) && plan(t + 2) && plan(t + 3) && plan(t + 4) && plan(t + 5)
         && RotateCallsWork(c, d.files, plan, t + 6)
       else IndexCallsWork(c, d.files, plan, t)
  }

  /** A batch changes something exactly if something in it is signed. */
  lemma {:induction false} BatchLonger(db: Db, serial: nat, requests: seq<Request>)
    requires Indexed(db) && IssueBatch(db, serial, requests).Some?
    ensures var (r, next) := IssueBatch(db, serial, requests).value;
            && r.unique == db.unique && serial <= next
            && (Signed(requests) == [] ==> next == serial && r == db)
            && (Signed(requests) != [] ==> next > serial && r.rows != [])
    decreases |requests|
  {
    hide IssueBatch, Issue, Indexed;
    if requests == [] {
      BatchEnd(db, serial);
    } else {
      BatchStep(db, serial, requests);
      if requests[0].sign {
        var cert := Cert(serial, requests[0].name, requests[0].expiry);
        IssueAddsRow(db, cert);
        IssueIndexed(db, cert);
        BatchLonger(Issue(db, cert).value, serial + 1, requests[1..]);
      } else {
        BatchLonger(db, serial, requests[1..]);
        assert Signed(requests) == Signed(requests[1..]);
      }
    }
  }

  lemma ExpireChanges(db: Db, now: Instant)
    requires now.IsUtc()
    ensures Expire(db, now).unique == db.unique && |Expire(db, now).rows| == |db.rows|
    ensures var due :=
              exists i ::
                0 <= i < |db.rows| && Kind(db.rows[i]) == 'V' && CountsAsExpired(db.rows[i].expiry, UtcText(now));
            && (due <==> ChangedRows(db.rows, Expire(db, now).rows) != {})
            && (!due ==> Expire(db, now) == db)
            && (due ==> Expire(db, now) != db && Expire(db, now).rows != [])
  {
    hide CountsAsExpired, UtcText;
    var r := Expire(db, now).rows;
    if i :| 0 <= i < |db.rows| && Kind(db.rows[i]) == 'V' && CountsAsExpired(db.rows[i].expiry, UtcText(now)) {
      assert Kind(r[i]) == 'E';
      assert i in ChangedRows(db.rows, r);
    } else {
      assert forall i :: 0 <= i < |db.rows| ==> r[i] == db.rows[i];
      assert r == db.rows;
    }
  }

  lemma RevokeLeavesRows(oidOf: OidParser, db: Db, cert: Cert, now: Instant, kind: int, arg: string)
    requires Indexed(db) && now.Valid()
    ensures Revoke(oidOf, db, cert, now, kind, arg).1 <==> WillRevoke(oidOf, db, cert, kind, arg)
    ensures Revoke(oidOf, db, cert, now, kind, arg).1 ==> Revoke(oidOf, db, cert, now, kind, arg).0.rows != []
  {
    hide Revoke;
    RevokeOutcome(oidOf, db, cert, now, kind, arg);
  }

  /** Where a run is after its actions. */
  function Progressed(oidOf: OidParser, c: Config, p: Progress, plan: Plan, cmds: seq<Job>): (r: Progress)
    requires Indexed(p.db)
    ensures Indexed(r.db)
    decreases |cmds|
  {
    if cmds == [] || !p.go then p
    else Progressed(oidOf, c, Act(oidOf, c, p.disk, plan, p.db, cmds[0]), plan, cmds[1..])
  }

  /** A run none of whose actions fails or is refused leaves its last database to the next run. */
  lemma RunIsCommitted(oidOf: OidParser, c: Config, d: Disk, plan: Plan, cmds: seq<Job>)
    requires c.Separate() && LoadFiles(oidOf, c, d.files).Some?
    ensures var db, e := LoadFiles(oidOf, c, d.files).value, Session(oidOf, c, d, plan, cmds);
            && Indexed(db)
            && var p := Progressed(oidOf, c, Progress(d, db, true), plan, cmds);
            && p.disk == e
            && (p.go ==> InSync(c, e.files, p.db))
            && (p.go && LoadFiles(oidOf, c, e.files).Some? ==> LoadFiles(oidOf, c, e.files).value.rows == p.db.rows)
  {
    hide Load;
    LoadCorrect(oidOf, d.files[c.dbfile].rows, UniqueSubject(c, d.files));
    var db := LoadFiles(oidOf, c, d.files).value;
    LoadedInSync(oidOf, c, d.files);
    ProgressInSync(oidOf, c, Progress(d, db, true), plan, cmds);
    LoadedInSync(oidOf, c, Session(oidOf, c, d, plan, cmds).files);
  }

  lemma {:induction false} ProgressInSync(oidOf: OidParser, c: Config, p: Progress, plan: Plan, cmds: seq<Job>)
    requires c.Separate() && Indexed(p.db) && p.go && InSync(c, p.disk.files, p.db)
    ensures var r := Progressed(oidOf, c, p, plan, cmds);
            r.disk == Actions(oidOf, c, p.disk, plan, p.db, cmds) && (r.go ==> InSync(c, r.disk.files, r.db))
    decreases |cmds|
  {
    hide Act, InSync;
    if cmds != [] {
      var q := Act(oidOf, c, p.disk, plan, p.db, cmds[0]);
      ActOutcome(oidOf, c, p.disk, plan, p.db, cmds[0]);
      if q.go {
        ProgressInSync(oidOf, c, q, plan, cmds[1..]);
      } else {
        assert Progressed(oidOf, c, q, plan, cmds[1..]) == q;
      }
    }
  }

  // ----- what the files always satisfy -----

  ghost predicate GoodIndex(oidOf: OidParser, rows: seq<Row>, unique: bool) {
    && Accepted(oidOf, rows)
    && DistinctSerials(rows) && (unique ==> DistinctValidNames(rows))
  }

  /**
   * A live index is complete and good; a live serial file is complete; when
   * both are there the serial number exceeds every one in the index.
   */
  ghost predicate Sound(oidOf: OidParser, c: Config, f: Files) {
    var p := c.Index();
    && (p.live in f ==> f[p.live].IndexFile? && GoodIndex(oidOf, f[p.live].rows, c.Strict()))
    && (c.serialfile in f ==> f[c.serialfile].SerialFile?)
    && (p.live in f && c.serialfile in f ==> Below(f[p.live].rows, f[c.serialfile].next))
    && (c.agreed && p.attr in f ==> f[p.attr] == AttrFile(c.unique))
    && (c.agreed && p.attrAside in f ==> f[p.attrAside] == AttrFile(c.unique))
  }

  /**
   * Of the rows there once were, if any are given: an index that has evolved
   * from them is live, or none is live and a good one is set aside.
   */
  ghost predicate Survives(oidOf: OidParser, c: Config, base: Option<seq<Row>>, f: Files) {
    base.Some? ==>
      var p := c.Index();
      if p.live in f then f[p.live].IndexFile? && Evolves(base.value, f[p.live].rows)
      else
        && p.aside in f && f[p.aside].IndexFile?
        && GoodIndex(oidOf, f[p.aside].rows, c.Strict()) && Evolves(base.value, f[p.aside].rows)
  }

  ghost predicate Safe(oidOf: OidParser, c: Config, base: Option<seq<Row>>, f: Files) {
    Sound(oidOf, c, f) && Survives(oidOf, c, base, f)
  }

  /** The rows have evolved from those given, if any are. */
  ghost predicate Follows(base: Option<seq<Row>>, rows: seq<Row>) {
    base.Some? ==> Evolves(base.value, rows)
  }

  /**
   * What an action must respect: well-formed expiry dates, a clock before 2050,
   * and no revocation of an unknown certificate numbered at or past the counter.
   */
  ghost predicate ActionSound(c: Config, f: Files, db: Db, cmd: Command) {
    match cmd
    case IssueCommand(requests, _) => RequestsSound(requests)
    case UpdateCommand(now) => now.IsUtc()
    case RevokeCommand(cert, now, _, _) =>
      && now.IsUtc()
      && (WillInsert(db, cert) ==>
            && TimeOk(cert.expiry)
            && (c.serialfile in f && f[c.serialfile].SerialFile? ==> cert.serial < f[c.serialfile].next))
  }

  ghost predicate ActionsSound(oidOf: OidParser, c: Config, d: Disk, plan: Plan, db: Db, cmds: seq<Job>)
    requires Indexed(db)
    decreases |cmds|
  {
    cmds == [] || (
      && ActionSound(c, d.files, db, cmds[0])
      && var p := Act(oidOf, c, d, plan, db, cmds[0]);
      && (p.go ==> ActionsSound(oidOf, c, p.disk, plan, p.db, cmds[1..])))
  }

  ghost predicate SessionSound(oidOf: OidParser, c: Config, d: Disk, plan: Plan, cmds: seq<Job>) {
    match LoadFiles(oidOf, c, d.files)
    case None => true
    case Some(db) =>
      LoadCorrect(oidOf, d.files[c.dbfile].rows, UniqueSubject(c, d.files));
      ActionsSound(oidOf, c, d, plan, db, cmds)
  }

  /** Between the actions of a run, the database in memory is fit to be saved. */
  ghost predicate InRun(oidOf: OidParser, c: Config, base: Option<seq<Row>>, f: Files, db: Db) {
    && Safe(oidOf, c, base, f) && c.dbfile in f
    && Indexed(db) && c.Fits(db.unique) && GoodIndex(oidOf, db.rows, db.unique)
    && (c.serialfile in f ==> Below(db.rows, f[c.serialfile].next))
    && Follows(base, db.rows)
  }

  ghost predicate AllSafe(oidOf: OidParser, c: Config, base: Option<seq<Row>>, d: Disk, e: Disk) {
    && d.log <= e.log
    && forall s :: Since(d, e, s) || s == e.files ==> Safe(oidOf, c, base, s)
  }

  lemma GoodIndexWeakens(oidOf: OidParser, rows: seq<Row>, unique: bool, strict: bool)
    requires GoodIndex(oidOf, rows, unique) && (strict ==> unique)
    ensures GoodIndex(oidOf, rows, strict)
  {
  }

  lemma SafeFrame(oidOf: OidParser, c: Config, base: Option<seq<Row>>, f: Files, g: Files)
    requires Safe(oidOf, c, base, f)
    requires forall q <- [c.dbfile, c.serialfile, c.Index().attr, c.Index().attrAside, c.Index().aside] ::
               (q in f <==> q in g) && (q in f ==> f[q] == g[q])
    ensures Safe(oidOf, c, base, g)
  {
    hide GoodIndex, Below, Evolves;
    var names := [c.dbfile, c.serialfile, c.Index().attr, c.Index().attrAside, c.Index().aside];
    assert names[0] in names && names[1] in names && names[2] in names && names[3] in names && names[4] in names;
  }

  lemma ConfigNamesApart(c: Config)
    requires c.Separate()
    ensures c.Index().Apart()
    ensures c.serialfile != c.SerialNew() && c.serialfile != c.SerialOld() && c.SerialNew() != c.SerialOld()
  {
    SixNamesApart(c.dbfile, "new", "old");
    SuffixedEqual(c.serialfile, "new", "old");
    assert |"attr." + "old"| != |"new"| && |"attr." + "new"| != |"old"|;
  }

  /** Writing a file that is not live harms nothing. */
  lemma WriteSound(oidOf: OidParser, c: Config, base: Option<seq<Row>>, d: Disk, plan: Plan, name: string,
                   content: Content)
    requires Safe(oidOf, c, base, d.files)
    requires name !in {c.dbfile, c.serialfile, c.Index().attr, c.Index().attrAside, c.Index().aside}
    ensures AllSafe(oidOf, c, base, d, Write(d, plan, name, content).0)
  {
    hide Safe;
    var e := Write(d, plan, name, content).0;
    forall s | Since(d, e, s) || s == e.files ensures Safe(oidOf, c, base, s) {
      SafeFrame(oidOf, c, base, d.files, s);
    }
  }

  lemma AllSafeTransitive(oidOf: OidParser, c: Config, base: Option<seq<Row>>, d: Disk, m: Disk, e: Disk)
    requires AllSafe(oidOf, c, base, d, m) && AllSafe(oidOf, c, base, m, e)
    ensures AllSafe(oidOf, c, base, d, e)
  {
    hide Safe;
    assert e.log[|d.log|..] == m.log[|d.log|..] + e.log[|m.log|..];
    forall s | Since(d, e, s) ensures Safe(oidOf, c, base, s) {
      assert Since(d, m, s) || Since(m, e, s);
    }
  }

  /** Saving the index: every state on the way is sound, and success leaves both new files. */
  lemma SaveIndexSound(oidOf: OidParser, c: Config, base: Option<seq<Row>>, d: Disk, plan: Plan, rows: seq<Row>,
                       unique: bool)
    requires c.Separate() && c.Fits(unique) && Safe(oidOf, c, base, d.files)
    ensures var (e, ok) := SaveIndex(d, plan, c.dbfile, "new", rows, unique);
            && AllSafe(oidOf, c, base, d, e)
            && SameOutside(d.files, e.files, {c.Index().incoming, c.Index().attrIncoming})
            && (ok ==> c.Index().incoming in e.files && e.files[c.Index().incoming] == IndexFile(rows))
            && (ok ==> c.Index().attrIncoming in e.files && e.files[c.Index().attrIncoming] == AttrFile(unique))
  {
    hide Safe;
    ConfigNamesApart(c);
    var p := c.Index();
    if |c.dbfile| + |"new"| + 6 < BSIZE {
      var (d1, ok1) := Write(d, plan, p.incoming, IndexFile(rows));
      WriteSound(oidOf, c, base, d, plan, p.incoming, IndexFile(rows));
      if ok1 && rows != [] {
        WriteSound(oidOf, c, base, d1, plan, p.attrIncoming, AttrFile(unique));
        AllSafeTransitive(oidOf, c, base, d, d1, Write(d1, plan, p.attrIncoming, AttrFile(unique)).0);
      }
    }
  }

  /** Rotating in a good index whose numbers the serial file already exceeds. */
  lemma RotateIndexSound(oidOf: OidParser, c: Config, base: Option<seq<Row>>, d: Disk, plan: Plan, rows: seq<Row>,
                         unique: bool)
    requires c.Separate() && c.Fits(unique) && Safe(oidOf, c, base, d.files) && c.dbfile in d.files
    requires c.Index().incoming in d.files && d.files[c.Index().incoming] == IndexFile(rows)
    requires c.Index().attrIncoming in d.files && d.files[c.Index().attrIncoming] == AttrFile(unique)
    requires GoodIndex(oidOf, rows, c.Strict()) && Follows(base, rows)
    requires c.serialfile in d.files ==> Below(rows, d.files[c.serialfile].next)
    ensures var r := RotateIndex(d, plan, c.dbfile, "new", "old");
            && AllSafe(oidOf, c, base, d, r.disk)
            && SameOutside(d.files, r.disk.files, c.Index().All())
            && (r.ok ==> c.dbfile in r.disk.files)
  {
    hide RotatePair, GoodIndex, Below, Evolves;
    ConfigNamesApart(c);
    var p := c.Index();
    var e := RotateIndex(d, plan, c.dbfile, "new", "old").disk;
    RotatePairOk(d, plan, p);
    if Since(d, e, e.files) {
      RotatePairOrigins(d, plan, p, e.files);
    }
    RotationStates(d, plan, p, e.files);
    RotationEnds(d, plan, p);
    forall s | Since(d, e, s) || s == e.files ensures Safe(oidOf, c, base, s) {
      if Since(d, e, s) {
        RotatePairOrigins(d, plan, p, s);
      }
    }
  }

  lemma RotatePairOk(d: Disk, plan: Plan, p: IndexPaths)
    requires p.Apart() && p.live in d.files
    ensures RotatePair(d, plan, p).ok ==> p.live in RotatePair(d, plan, p).disk.files
  {
    hide Install, Undo;
    InstallEffect(d, plan, p.live, p.incoming, p.aside);
    var first := Install(d, plan, p.live, p.incoming, p.aside);
    if first.ok {
      var second := Install(first.disk, plan, p.attr, p.attrIncoming, p.attrAside);
      InstallOrigins(first.disk, plan, p.attr, p.attrIncoming, p.attrAside, second.disk.files);
    }
  }

  /** A rotation that moved anything logged the state it ends in. */
  lemma RotationEnds(d: Disk, plan: Plan, p: IndexPaths)
    ensures var e := RotatePair(d, plan, p).disk;
            e.files == d.files || Since(d, e, e.files)
  {
    hide Rename;
    InstallEnds(d, plan, p.live, p.incoming, p.aside);
    var first := Install(d, plan, p.live, p.incoming, p.aside);
    if first.ok {
      var second := Install(first.disk, plan, p.attr, p.attrIncoming, p.attrAside);
      InstallEnds(first.disk, plan, p.attr, p.attrIncoming, p.attrAside);
      EndsTransitive(d, first.disk, second.disk);
      if !second.ok {
        RenameEnds(second.disk, plan, p.live, p.incoming);
        var d1 := Rename(second.disk, plan, p.live, p.incoming).0;
        RenameEnds(d1, plan, p.aside, p.live);
        EndsTransitive(d, second.disk, d1);
        EndsTransitive(d, d1, Rename(d1, plan, p.aside, p.live).0);
      }
    }
  }

  /** The log ends in the present state, unless nothing happened. */
  ghost predicate Ends(d: Disk, e: Disk) {
    (e.log == d.log && e.files == d.files) || (d.log <= e.log && Since(d, e, e.files))
  }

  lemma EndsTransitive(d: Disk, m: Disk, e: Disk)
    requires Ends(d, m) && Ends(m, e)
    ensures Ends(d, e)
  {
    assert d.log <= m.log <= e.log;
    assert e.log[|d.log|..] == m.log[|d.log|..] + e.log[|m.log|..];
  }

  lemma RenameEnds(d: Disk, plan: Plan, from: string, to: string)
    ensures Ends(d, Rename(d, plan, from, to).0)
  {
    var e := Rename(d, plan, from, to).0;
    assert e.log == d.log || e.log[|d.log|..] == [e.files];
  }

  lemma SaveAndRotateSound(oidOf: OidParser, c: Config, base: Option<seq<Row>>, d: Disk, plan: Plan, rows: seq<Row>,
                           unique: bool)
    requires c.Separate() && c.Fits(unique) && Safe(oidOf, c, base, d.files) && c.dbfile in d.files
    requires GoodIndex(oidOf, rows, unique) && Follows(base, rows)
    requires c.serialfile in d.files ==> Below(rows, d.files[c.serialfile].next)
    ensures var (e, ok) := SaveAndRotateIndex(d, plan, c, rows, unique);
            && AllSafe(oidOf, c, base, d, e)
            && (ok ==>
                  && c.dbfile in e.files
                  && (c.serialfile in e.files ==>
                        c.serialfile in d.files && e.files[c.serialfile] == d.files[c.serialfile]))
  {
    hide Safe, SaveIndex, RotateIndex, GoodIndex, Below, Follows;
    ConfigNamesApart(c);
    GoodIndexWeakens(oidOf, rows, unique, c.Strict());
    var (d1, saved) := SaveIndex(d, plan, c.dbfile, "new", rows, unique);
    SaveIndexSound(oidOf, c, base, d, plan, rows, unique);
    if saved {
      RotateIndexSound(oidOf, c, base, d1, plan, rows, unique);
      AllSafeTransitive(oidOf, c, base, d, d1, RotateIndex(d1, plan, c.dbfile, "new", "old").disk);
    }
  }

  /** Rotating in a larger serial number. */
  lemma RotateSerialSound(oidOf: OidParser, c: Config, base: Option<seq<Row>>, d: Disk, plan: Plan, next: nat)
    requires c.Separate() && Safe(oidOf, c, base, d.files) && c.serialfile in d.files
    requires c.SerialNew() in d.files && d.files[c.SerialNew()] == SerialFile(next)
    requires d.files[c.serialfile].next <= next
    ensures var r := RotateSerial(d, plan, c.serialfile, "new", "old");
            && AllSafe(oidOf, c, base, d, r.disk)
            && SameOutside(d.files, r.disk.files, {c.serialfile, c.SerialNew(), c.SerialOld()})
            && (r.ok ==> c.serialfile in r.disk.files && r.disk.files[c.serialfile] == SerialFile(next))
  {
    hide Install, GoodIndex, Evolves;
    ConfigNamesApart(c);
    var r := RotateSerial(d, plan, c.serialfile, "new", "old");
    if |c.serialfile| + Max(|"new"|, |"old"|) + 1 < BSIZE {
      InstallEffect(d, plan, c.serialfile, c.SerialNew(), c.SerialOld());
      InstallEnds(d, plan, c.serialfile, c.SerialNew(), c.SerialOld());
    }
    forall s | Since(d, r.disk, s) || s == r.disk.files ensures Safe(oidOf, c, base, s) {
      if Since(d, r.disk, s) {
        InstallStates(d, plan, c.serialfile, c.SerialNew(), c.SerialOld(), s);
      }
    }
  }

  lemma InstallEnds(d: Disk, plan: Plan, live: string, incoming: string, aside: string)
    ensures var e := Install(d, plan, live, incoming, aside).disk;
            Ends(d, e)
  {
    hide Rename;
    var d1 := Rename(d, plan, live, aside).0;
    var d2 := Rename(d1, plan, incoming, live).0;
    var d3 := Rename(d2, plan, aside, live).0;
    RenameEnds(d, plan, live, aside);
    RenameEnds(d1, plan, incoming, live);
    RenameEnds(d2, plan, aside, live);
    EndsTransitive(d, d1, d2);
    EndsTransitive(d, d2, d3);
  }

  /**
   * Committing an issuing run. Whatever call fails and wherever the run stops,
   * the serial file exceeds the live index; this rests on the serial file being
   * rotated first.
   */
  lemma CommitIssuedSound(oidOf: OidParser, c: Config, base: Option<seq<Row>>, d: Disk, plan: Plan, next: nat,
                          rows: seq<Row>, unique: bool)
    requires c.Separate() && c.Fits(unique) && Safe(oidOf, c, base, d.files)
    requires c.dbfile in d.files && c.serialfile in d.files && d.files[c.serialfile].next <= next
    requires GoodIndex(oidOf, rows, unique) && Below(rows, next) && Follows(base, rows)
    ensures var (e, ok) := CommitIssued(d, plan, c, next, rows, unique);
            && AllSafe(oidOf, c, base, d, e)
            && (ok ==> c.dbfile in e.files && c.serialfile in e.files && e.files[c.serialfile] == SerialFile(next))
  {
    hide SaveSerial, SaveIndex, RotateIndex, RotateSerial, GoodIndex, Below, Follows, Safe, AllSafe;
    ConfigNamesApart(c);
    GoodIndexWeakens(oidOf, rows, unique, c.Strict());
    var (d1, ok1) := SaveSerial(d, plan, c.serialfile, "new", next);
    SaveSerialSound(oidOf, c, base, d, plan, next);
    if ok1 {
      var (d2, ok2) := SaveIndex(d1, plan, c.dbfile, "new", rows, unique);
      SafeEnd(oidOf, c, base, d, d1);
      SaveIndexSound(oidOf, c, base, d1, plan, rows, unique);
      AllSafeTransitive(oidOf, c, base, d, d1, d2);
      if ok2 {
        var d3 := d2.(turn := d2.turn + 1);
        SafeEnd(oidOf, c, base, d1, d2);
        Waited(oidOf, c, base, d, d2);
        if plan(d2.turn) {
          var r := RotateSerial(d3, plan, c.serialfile, "new", "old");
          RotateSerialSound(oidOf, c, base, d3, plan, next);
          AllSafeTransitive(oidOf, c, base, d, d3, r.disk);
          if r.ok {
            SafeEnd(oidOf, c, base, d3, r.disk);
            RotateIndexSound(oidOf, c, base, r.disk, plan, rows, unique);
            AllSafeTransitive(oidOf, c, base, d, r.disk, RotateIndex(r.disk, plan, c.dbfile, "new", "old").disk);
          }
        }
      }
    }
  }

  lemma SafeEnd(oidOf: OidParser, c: Config, base: Option<seq<Row>>, d: Disk, e: Disk)
    requires AllSafe(oidOf, c, base, d, e)
    ensures Safe(oidOf, c, base, e.files)
  {
  }

  lemma Waited(oidOf: OidParser, c: Config, base: Option<seq<Row>>, d: Disk, e: Disk)
    requires AllSafe(oidOf, c, base, d, e)
    ensures AllSafe(oidOf, c, base, d, e.(turn := e.turn + 1))
  {
    hide Safe;
    var w := e.(turn := e.turn + 1);
    assert forall s :: Since(d, w, s) <==> Since(d, e, s);
  }

  lemma SaveSerialSound(oidOf: OidParser, c: Config, base: Option<seq<Row>>, d: Disk, plan: Plan, next: nat)
    requires c.Separate() && Safe(oidOf, c, base, d.files)
    ensures var (e, ok) := SaveSerial(d, plan, c.serialfile, "new", next);
            && AllSafe(oidOf, c, base, d, e)
            && SameOutside(d.files, e.files, {c.SerialNew()})
            && (ok ==> c.SerialNew() in e.files && e.files[c.SerialNew()] == SerialFile(next))
  {
    hide Safe;
    ConfigNamesApart(c);
    if |c.serialfile| + |"new"| + 1 < BSIZE {
      WriteSound(oidOf, c, base, d, plan, c.SerialNew(), SerialFile(next));
    }
  }

  // ----- every run, from every state -----

  /**
   * A live index loads exactly unless unique_subject is on and valid rows share a
   * name, which the promise rules out.
   */
  lemma LoadedIsGood(oidOf: OidParser, c: Config, f: Files)
    requires Sound(oidOf, c, f)
    ensures LoadFiles(oidOf, c, f).Some? <==>
              c.dbfile in f && (UniqueSubject(c, f) ==> DistinctValidNames(f[c.dbfile].rows))
    ensures c.dbfile in f && c.agreed ==> LoadFiles(oidOf, c, f).Some?
    ensures LoadFiles(oidOf, c, f).Some? ==>
              var db := LoadFiles(oidOf, c, f).value;
              && Indexed(db) && db.rows == f[c.dbfile].rows && db.unique == UniqueSubject(c, f)
              && c.Fits(db.unique) && GoodIndex(oidOf, db.rows, db.unique)
  {
    hide Accepted;
    if c.dbfile in f {
      assert GoodIndex(oidOf, f[c.dbfile].rows, c.Strict());
      LoadCorrect(oidOf, f[c.dbfile].rows, UniqueSubject(c, f));
    }
  }

  lemma ExpireRowIsGood(oidOf: OidParser, row: Row, now: string)
    ensures var r := ExpireRow(row, now);
            && (LoaderAccepts(oidOf, row) ==> LoaderAccepts(oidOf, r))
            && r.serial == row.serial && r.name == row.name && (Kind(r) == 'V' ==> Kind(row) == 'V')
  {
    hide TimeOk, MakeRevoked, CountsAsExpired, SerialOk;
  }

  lemma ExpireIsGood(oidOf: OidParser, db: Db, now: Instant, n: nat)
    requires Indexed(db) && GoodIndex(oidOf, db.rows, db.unique) && now.IsUtc()
    ensures GoodIndex(oidOf, Expire(db, now).rows, db.unique)
    ensures Below(db.rows, n) ==> Below(Expire(db, now).rows, n)
  {
    hide LoaderAccepts, Kind, ExpireRow, UtcText, Serial.Key, Serial.IsUpperHex;
    var r := Expire(db, now).rows;
    forall i | 0 <= i < |db.rows|
      ensures LoaderAccepts(oidOf, db.rows[i]) ==> LoaderAccepts(oidOf, r[i])
      ensures r[i].serial == db.rows[i].serial && r[i].name == db.rows[i].name
      ensures Kind(r[i]) == 'V' ==> Kind(db.rows[i]) == 'V'
    {
      ExpireRowIsGood(oidOf, db.rows[i], UtcText(now));
    }
  }

  lemma RevokeIsGood(oidOf: OidParser, db: Db, cert: Cert, now: Instant, kind: int, arg: string, n: nat)
    requires Indexed(db) && GoodIndex(oidOf, db.rows, db.unique) && now.IsUtc()
    requires WillInsert(db, cert) ==> TimeOk(cert.expiry)
    ensures var r := Revoke(oidOf, db, cert, now, kind, arg).0.rows;
            && GoodIndex(oidOf, r, db.unique)
            && (Below(db.rows, n) && (WillInsert(db, cert) ==> cert.serial < n) ==> Below(r, n))
  {
    hide Revoke, LoaderAccepts, Serial.Key, Serial.Text, RevocationString, FieldsFor, Accepted, WillInsert,
      WillRevoke, Indexed;
    var r := Revoke(oidOf, db, cert, now, kind, arg).0;
    RevokeAcceptedIff(oidOf, db, cert, now, kind, arg);
    RevokeKeepsUnique(oidOf, db, cert, now, kind, arg);
    IndexedHasNoClash(r);
    if Below(db.rows, n) && (WillInsert(db, cert) ==> cert.serial < n) {
      RevokeBelow(oidOf, db, cert, now, kind, arg, n);
    }
  }

  lemma RevokeKeepsUnique(oidOf: OidParser, db: Db, cert: Cert, now: Instant, kind: int, arg: string)
    requires Indexed(db) && now.Valid()
    ensures Revoke(oidOf, db, cert, now, kind, arg).0.unique == db.unique
  {
    hide Revoke;
    RevokeOutcome(oidOf, db, cert, now, kind, arg);
    EnteredIndexed(db, cert);
  }

  lemma RevokeBelow(oidOf: OidParser, db: Db, cert: Cert, now: Instant, kind: int, arg: string, n: nat)
    requires Indexed(db) && now.Valid() && Below(db.rows, n)
    requires WillInsert(db, cert) ==> cert.serial < n
    ensures Below(Revoke(oidOf, db, cert, now, kind, arg).0.rows, n)
  {
    hide Revoke, Serial.Key, Serial.Text, RevocationString, FieldsFor, WillInsert, WillRevoke, Indexed;
    var r := Revoke(oidOf, db, cert, now, kind, arg).0;
    RevokeOutcome(oidOf, db, cert, now, kind, arg);
    EnteredIndexed(db, cert);
    Serial.TextRoundTrip(cert.serial);
    Serial.UpperNumberOf(Serial.Text(cert.serial));
    var e := Entered(db, cert).rows;
    forall i | 0 <= i < |e| ensures Serial.NumberOf(e[i].serial) < n {
      if i < |db.rows| {
        assert e[i] == db.rows[i];
      } else {
        assert e[i] == NewRow(cert);
      }
    }
    assert forall i :: 0 <= i < |e| ==> r.rows[i].serial == e[i].serial;
  }

  /** An action, stopped anywhere, leaves sound files; if the run goes on, it can. */
  lemma ActKeepsSound(oidOf: OidParser, c: Config, base: Option<seq<Row>>, d: Disk, plan: Plan, db: Db, cmd: Job)
    requires c.Separate() && InRun(oidOf, c, base, d.files, db) && ActionSound(c, d.files, db, cmd)
    ensures var p := Act(oidOf, c, d, plan, db, cmd);
            && AllSafe(oidOf, c, base, d, p.disk)
            && (p.go ==> InRun(oidOf, c, base, p.disk.files, p.db))
  {
    hide CommitIssued, SaveAndRotateIndex, Revoke, Expire, IssueBatch, GoodIndex, Below, Indexed, Accepted, Follows,
      Survives;
    var n := if c.serialfile in d.files then d.files[c.serialfile].next else 0;
    NothingDone(oidOf, c, base, d);
    match cmd
    case IssueCommand(requests, confirm) =>
      if c.serialfile in d.files && IssueBatch(db, n, requests).Some? {
        GoodIsAccepted(oidOf, db.rows, db.unique);
        BatchKeeps(oidOf, db, n, requests);
        BatchIndexed(db, n, requests);
        var (db', next) := IssueBatch(db, n, requests).value;
        BatchIsGood(oidOf, db');
        FollowsLonger(base, db.rows, db'.rows);
        if next > n {
          CommitIssuedSound(oidOf, c, base, d, plan, next, db'.rows, db.unique);
          SafeEnd(oidOf, c, base, d, CommitIssued(d, plan, c, next, db'.rows, db.unique).0);
        }
      }
    case UpdateCommand(now) =>
      ExpireIsGood(oidOf, db, now, n);
      FollowsStep(oidOf, base, db, ExpireStep(now));
      var e := SaveAndRotateIndex(d, plan, c, Expire(db, now).rows, db.unique).0;
      assert Expire(db, now).unique == db.unique by { ExpireKeepsUnique(db, now); }
      SaveAndRotateSound(oidOf, c, base, d, plan, Expire(db, now).rows, db.unique);
      SafeEnd(oidOf, c, base, d, e);
    case RevokeCommand(cert, now, kind, arg) =>
      RevokeIsGood(oidOf, db, cert, now, kind, arg, n);
      FollowsStep(oidOf, base, db, RevokeStep(cert, now, kind, arg));
      RevokeKeepsUnique(oidOf, db, cert, now, kind, arg);
      var rows := Revoke(oidOf, db, cert, now, kind, arg).0.rows;
      SaveAndRotateSound(oidOf, c, base, d, plan, rows, db.unique);
      SafeEnd(oidOf, c, base, d, SaveAndRotateIndex(d, plan, c, rows, db.unique).0);
  }

  lemma FollowsStep(oidOf: OidParser, base: Option<seq<Row>>, db: Db, step: Step)
    requires Indexed(db) && Follows(base, db.rows)
    ensures Follows(base, Apply(oidOf, db, step).rows)
  {
    hide Apply, Evolves;
    StepEvolves(oidOf, db, step);
    if base.Some? {
      EvolvesTransitive(base.value, db.rows, Apply(oidOf, db, step).rows);
    }
  }

  lemma FollowsLonger(base: Option<seq<Row>>, rows: seq<Row>, longer: seq<Row>)
    requires Follows(base, rows) && rows <= longer
    ensures Follows(base, longer)
  {
    hide Evolves;
    AppendEvolves(rows, longer[|rows|..]);
    assert rows + longer[|rows|..] == longer;
    if base.Some? {
      EvolvesTransitive(base.value, rows, longer);
    }
  }

  lemma NothingDone(oidOf: OidParser, c: Config, base: Option<seq<Row>>, d: Disk)
    requires Safe(oidOf, c, base, d.files)
    ensures AllSafe(oidOf, c, base, d, d)
  {
  }

  lemma GoodIsAccepted(oidOf: OidParser, rows: seq<Row>, unique: bool)
    requires GoodIndex(oidOf, rows, unique)
    ensures Accepted(oidOf, rows)
  {
  }

  lemma BatchIsGood(oidOf: OidParser, db: Db)
    requires Indexed(db) && Accepted(oidOf, db.rows)
    ensures GoodIndex(oidOf, db.rows, db.unique)
  {
    IndexedHasNoClash(db);
  }

  lemma ExpireKeepsUnique(db: Db, now: Instant)
    requires now.Valid()
    ensures Expire(db, now).unique == db.unique
  {
  }

  lemma {:induction false} ActionsKeepSound(oidOf: OidParser, c: Config, base: Option<seq<Row>>, d: Disk, plan: Plan,
                                            db: Db, cmds: seq<Job>)
    requires c.Separate() && InRun(oidOf, c, base, d.files, db) && ActionsSound(oidOf, c, d, plan, db, cmds)
    ensures AllSafe(oidOf, c, base, d, Actions(oidOf, c, d, plan, db, cmds))
    decreases |cmds|
  {
    hide Act, Safe, GoodIndex, Below;
    NothingDone(oidOf, c, base, d);
    if cmds != [] {
      var p := Act(oidOf, c, d, plan, db, cmds[0]);
      ActKeepsSound(oidOf, c, base, d, plan, db, cmds[0]);
      if p.go {
        ActionsKeepSound(oidOf, c, base, p.disk, plan, p.db, cmds[1..]);
        AllSafeTransitive(oidOf, c, base, d, p.disk, Actions(oidOf, c, p.disk, plan, p.db, cmds[1..]));
      }
    }
  }

  /** Any run, whatever it does and wherever it stops, leaves sound files. */
  lemma SessionKeepsSound(oidOf: OidParser, c: Config, base: Option<seq<Row>>, d: Disk, plan: Plan, cmds: seq<Job>)
    requires c.Separate() && Safe(oidOf, c, base, d.files) && SessionSound(oidOf, c, d, plan, cmds)
    ensures AllSafe(oidOf, c, base, d, Session(oidOf, c, d, plan, cmds))
  {
    hide Actions, ActionsSound, LoadFiles;
    NothingDone(oidOf, c, base, d);
    LoadedIsGood(oidOf, c, d.files);
    if LoadFiles(oidOf, c, d.files).Some? {
      ActionsKeepSound(oidOf, c, base, d, plan, LoadFiles(oidOf, c, d.files).value, cmds);
    }
  }

  /** A run, the system calls that fail in it, and the logged state a crash leaves. */
  datatype Episode = Episode(cmds: seq<Job>, plan: Plan, crash: nat)

  function FilesAfter(oidOf: OidParser, c: Config, f: Files, ep: Episode): Files {
    var e := Session(oidOf, c, Disk(f, [], 0), ep.plan, ep.cmds);
    if ep.crash < |e.log| then e.log[ep.crash] else e.files
  }

  function FilesAtEnd(oidOf: OidParser, c: Config, f: Files, history: seq<Episode>): Files
    decreases |history|
  {
    if history == [] then f
    else FilesAtEnd(oidOf, c, FilesAfter(oidOf, c, f, history[0]), history[1..])
  }

  ghost predicate HistorySound(oidOf: OidParser, c: Config, f: Files, history: seq<Episode>)
    decreases |history|
  {
    history == [] || (
      && SessionSound(oidOf, c, Disk(f, [], 0), history[0].plan, history[0].cmds)
      && HistorySound(oidOf, c, FilesAfter(oidOf, c, f, history[0]), history[1..]))
  }

  /**
   * Over every history of runs, each failing and crashing as it may: the files
   * stay sound, and the number in a live serial file is free in the live index
   * that is loaded. The index loads exactly unless unique_subject is on and
   * valid rows share a name, which cannot be if attribute files and
   * configuration agree.
   */
  lemma EveryHistorySound(oidOf: OidParser, c: Config, f: Files, history: seq<Episode>)
    requires c.Separate() && Sound(oidOf, c, f) && HistorySound(oidOf, c, f, history)
    ensures var g := FilesAtEnd(oidOf, c, f, history);
            && Sound(oidOf, c, g)
            && (c.dbfile in g && c.agreed ==> LoadFiles(oidOf, c, g).Some?)
            && (c.dbfile in g ==>
                  (LoadFiles(oidOf, c, g).Some? <==> (UniqueSubject(c, g) ==> DistinctValidNames(g[c.dbfile].rows))))
            && (LoadFiles(oidOf, c, g).Some? && c.serialfile in g ==>
                  LookupSerial(LoadFiles(oidOf, c, g).value, Serial.Text(g[c.serialfile].next)).None?)
  {
    var g := FilesAtEnd(oidOf, c, f, history);
    HistoryKeepsSafe(oidOf, c, None, f, history);
    LoadedIsGood(oidOf, c, g);
    if LoadFiles(oidOf, c, g).Some? && c.serialfile in g {
      NextSerialIsFree(LoadFiles(oidOf, c, g).value, g[c.serialfile].next);
    }
  }

  /**
   * The database survives every history: where an index was live to begin with,
   * there is a good one in the end, live or set aside, and its rows have evolved
   * from the first ones, none lost and each only along its life cycle.
   */
  lemma EveryHistorySurvives(oidOf: OidParser, c: Config, f: Files, history: seq<Episode>) returns (name: string)
    requires c.Separate() && Sound(oidOf, c, f) && HistorySound(oidOf, c, f, history) && c.dbfile in f
    ensures var g := FilesAtEnd(oidOf, c, f, history);
            && name == (if c.dbfile in g then c.dbfile else c.Index().aside)
            && name in g && g[name].IndexFile? && GoodIndex(oidOf, g[name].rows, c.Strict())
            && Evolves(f[c.dbfile].rows, g[name].rows)
  {
    hide GoodIndex, Evolves, FilesAtEnd, HistorySound;
    AppendEvolves(f[c.dbfile].rows, []);
    HistoryKeepsSafe(oidOf, c, Some(f[c.dbfile].rows), f, history);
    var g := FilesAtEnd(oidOf, c, f, history);
    name := if c.dbfile in g then c.dbfile else c.Index().aside;
  }

  lemma {:induction false} HistoryKeepsSafe(oidOf: OidParser, c: Config, base: Option<seq<Row>>, f: Files,
                                            history: seq<Episode>)
    requires c.Separate() && Safe(oidOf, c, base, f) && HistorySound(oidOf, c, f, history)
    ensures Safe(oidOf, c, base, FilesAtEnd(oidOf, c, f, history))
    decreases |history|
  {
    hide Session, SessionSound, Safe;
    if history != [] {
      var ep := history[0];
      var d := Disk(f, [], 0);
      var e := Session(oidOf, c, d, ep.plan, ep.cmds);
      SessionKeepsSound(oidOf, c, base, d, ep.plan, ep.cmds);
      if ep.crash < |e.log| {
        assert e.log[0..][ep.crash] == e.log[ep.crash] && Since(d, e, e.log[ep.crash]);
      }
      HistoryKeepsSafe(oidOf, c, base, FilesAfter(oidOf, c, f, ep), history[1..]);
    }
  }

  /**
   * Why loading needs the promise: a rotation sets the attribute file aside
   * before the new one is in place. A crash in between leaves the new index to a
   * configuration that turns unique_subject on, and names that were allowed to
   * repeat no longer load.
   */
  lemma AttributesCanBeLost(oidOf: OidParser, c: Config, d: Disk, plan: Plan, rows: seq<Row>) returns (s: Files)
    requires c.unique && !LongName(c.dbfile, "new", "old")
    requires {c.Index().live, c.Index().incoming, c.Index().attr} <= d.files.Keys
    requires d.files[c.Index().incoming] == IndexFile(rows) && Load(oidOf, rows, false).Some? &&
            !DistinctValidNames(rows)
    requires plan(d.turn) && plan(d.turn + 1) && plan(d.turn + 2)
    ensures Since(d, RotateIndex(d, plan, c.dbfile, "new", "old").disk, s)
    ensures c.dbfile in s && s[c.dbfile] == IndexFile(rows)
    ensures LoadFiles(oidOf, c, s).None?
  {
    hide Load, DistinctValidNames, RotateIndex;
    SixNamesApart(c.dbfile, "new", "old");
    s := ThirdRename(d, plan, c.Index());
    RotateIndexIsPair(d, plan, c.dbfile);
    LoadCorrect(oidOf, rows, true);
  }

  /** A database in which a name is valid twice, kept with unique_subject off. */
  function SharedNameRows(): seq<Row> {
    [ExampleRow("V", "", "0A"), ExampleRow("V", "", "0B"), ExampleRow("V", "", "0C").(name := "other")]
  }

  const LOOSE_CONFIG: Config := Config("db", "ser", true, false)

  function LooseFiles(): Files {
    map["db" := IndexFile(SharedNameRows()), "db.attr" := AttrFile(false)]
  }

  const REVOKE_OTHER: Job := RevokeCommand(Cert(12, "other", ""), FIRST_UTC, REV_NONE, "")

  lemma SharedNamesLoad(oidOf: OidParser)
    ensures Load(oidOf, SharedNameRows(), false).Some?
    ensures var db := Load(oidOf, SharedNameRows(), false).value;
            Indexed(db) && db.rows == SharedNameRows() && !db.unique && LookupSerial(db, Serial.Text(12)) == Some(2)
    ensures Accepted(oidOf, SharedNameRows()) && DistinctSerials(SharedNameRows())
  {
    hide LoaderAccepts, Load, Serial.Text, Serial.Key, Serial.NumberOf, Serial.IsUpperHex, Indexed, LookupSerial;
    var rows := SharedNameRows();
    KeyOfTwo('A');
    KeyOfTwo('B');
    KeyOfTwo('C');
    NumberOfTwo('C');
    UpperTwo('C');
    assert rows[0].serial == ['0', 'A'] && rows[1].serial == ['0', 'B'] && rows[2].serial == ['0', 'C'];
    ExampleRowLoads(oidOf, "V", "", "0A");
    ExampleRowLoads(oidOf, "V", "", "0B");
    ExampleRowLoads(oidOf, "V", "", "0C");
    SameExpiryAndSerialLoad(oidOf, ExampleRow("V", "", "0C"), rows[2]);
    LoadCorrect(oidOf, rows, false);
    FoundByNumberIff(Load(oidOf, rows, false).value, 2, 12);
  }

  /** What revoking certificate 12 makes of it. */
  lemma RevokeOther(oidOf: OidParser, db: Db)
    requires Indexed(db) && db.rows == SharedNameRows() && !db.unique && LookupSerial(db, Serial.Text(12)) == Some(2)
    requires Accepted(oidOf, db.rows)
    ensures var (r, ok) := Revoke(oidOf, db, REVOKE_OTHER.cert, FIRST_UTC, REV_NONE, "");
            ok && r.rows != [] && Load(oidOf, r.rows, false).Some? && !DistinctValidNames(r.rows)
    ensures !WillInsert(db, REVOKE_OTHER.cert)
  {
    hide Revoke, LoaderAccepts, Load, Serial.Text, Serial.Key, UtcText, RevocationString, Indexed;
    var cert := REVOKE_OTHER.cert;
    PlainTextIsAccepted(oidOf, FIRST_UTC);
    RevokeUnfolded(oidOf, db, cert, FIRST_UTC, REV_NONE, "");
    RevokeReloadsIff(oidOf, db, cert, FIRST_UTC, REV_NONE, "");
    var r := Revoke(oidOf, db, cert, FIRST_UTC, REV_NONE, "").0;
    assert r.rows[0] == db.rows[0] && r.rows[1] == db.rows[1];
  }

  /** Saving an index when every call works. */
  lemma SaveWorks(d: Disk, plan: Plan, c: Config, rows: seq<Row>, unique: bool) returns (d1: Disk)
    requires rows != [] && !LongName(c.dbfile, "new", "old") && forall t :: plan(t)
    ensures SaveIndex(d, plan, c.dbfile, "new", rows, unique) == (d1, true)
    ensures d.log <= d1.log
    ensures c.Index().incoming in d1.files && d1.files[c.Index().incoming] == IndexFile(rows)
    ensures d.files.Keys <= d1.files.Keys
  {
    SixNamesApart(c.dbfile, "new", "old");
    d1 := SaveIndex(d, plan, c.dbfile, "new", rows, unique).0;
  }

  /**
   * A history that ends so: with unique_subject off in the attribute file and on
   * in the configuration, a database loads in which a name is valid twice; a run
   * that revokes some other certificate crashes; and the index it left does not
   * load.
   */
  lemma LostAttributesExample(oidOf: OidParser) returns (history: seq<Episode>)
    ensures var c, f := LOOSE_CONFIG, LooseFiles();
            && c.Separate() && Sound(oidOf, c, f) && LoadFiles(oidOf, c, f).Some?
            && HistorySound(oidOf, c, f, history)
            && var g := FilesAtEnd(oidOf, c, f, history);
            c.dbfile in g && LoadFiles(oidOf, c, g).None?
  {
    hide Load, Indexed, LookupSerial, Revoke, WillInsert, DistinctValidNames, DistinctSerials, Accepted,
      SharedNameRows, SaveIndex, RotateIndex, RotatePair;
    var c, f := LOOSE_CONFIG, LooseFiles();
    var d, plan: Plan := Disk(f, [], 0), _ => true;
    LooseNames();
    SharedNamesLoad(oidOf);
    var db := LoadFiles(oidOf, c, f).value;
    RevokeOther(oidOf, db);
    var rows := Revoke(oidOf, db, REVOKE_OTHER.cert, FIRST_UTC, REV_NONE, "").0.rows;
    var d1 := SaveWorks(d, plan, c, rows, false);
    var s := AttributesCanBeLost(oidOf, c, d1, plan, rows);
    var e := RotateIndex(d1, plan, c.dbfile, "new", "old").disk;
    OneAction(oidOf, c, d, plan, REVOKE_OTHER);
    assert Act(oidOf, c, d, plan, db, REVOKE_OTHER).disk == SaveAndRotateIndex(d, plan, c, rows, false).0 == e;
    var k :| 0 <= k < |e.log| && e.log[k] == s;
    var ep := Episode([REVOKE_OTHER], plan, k);
    history := [ep];
    assert FilesAfter(oidOf, c, f, ep) == s;
    assert history[1..] == [];
    assert HistorySound(oidOf, c, s, []) && FilesAtEnd(oidOf, c, s, []) == s;
  }

  lemma LooseNames()
    ensures LOOSE_CONFIG.Separate() && !LongName("db", "new", "old")
    ensures Suffixed("db", "attr") == "db.attr"
  {
    var c := LOOSE_CONFIG;
    assert forall name <- c.Index().All() :: name != "" && name[0] == 'd';
    assert c.SerialNew()[0] == 's' && c.SerialOld()[0] == 's' && c.serialfile[0] == 's';
  }

  /** A run of one action. */
  lemma OneAction(oidOf: OidParser, c: Config, d: Disk, plan: Plan, cmd: Job)
    requires LoadFiles(oidOf, c, d.files).Some?
    ensures var db := LoadFiles(oidOf, c, d.files).value;
            && Indexed(db)
            && Session(oidOf, c, d, plan, [cmd]) == Act(oidOf, c, d, plan, db, cmd).disk
            && (SessionSound(oidOf, c, d, plan, [cmd]) <==> ActionSound(c, d.files, db, cmd))
  {
    hide Act, ActionSound, Load;
    LoadCorrect(oidOf, d.files[c.dbfile].rows, UniqueSubject(c, d.files));
    var db := LoadFiles(oidOf, c, d.files).value;
    var p := Act(oidOf, c, d, plan, db, cmd);
    assert [cmd][1..] == [];
    assert Actions(oidOf, c, d, plan, db, [cmd]) == p.disk;
    assert ActionsSound(oidOf, c, p.disk, plan, p.db, []);
    assert ActionsSound(oidOf, c, d, plan, db, [cmd]) <==> ActionSound(c, d.files, db, cmd);
  }

  lemma RotateIndexIsPair(d: Disk, plan: Plan, dbfile: string)
    requires !LongName(dbfile, "new", "old")
    ensures RotateIndex(d, plan, dbfile, "new", "old") == RotatePair(d, plan, PathsOf(dbfile, "new", "old"))
  {
  }

  /** What a rotation has moved after three renames. */
  lemma ThirdRename(d: Disk, plan: Plan, p: IndexPaths) returns (s: Files)
    requires p.Apart() && {p.live, p.incoming, p.attr} <= d.files.Keys
    requires plan(d.turn) && plan(d.turn + 1) && plan(d.turn + 2)
    ensures Since(d, RotatePair(d, plan, p).disk, s)
    ensures p.live in s && s[p.live] == d.files[p.incoming] && p.attr !in s
  {
    hide Install, Undo, Rename;
    var first := Install(d, plan, p.live, p.incoming, p.aside);
    InstallEffect(d, plan, p.live, p.incoming, p.aside);
    InstallTurn(d, plan, p.live, p.incoming, p.aside);
    var second := Install(first.disk, plan, p.attr, p.attrIncoming, p.attrAside);
    InstallEffect(first.disk, plan, p.attr, p.attrIncoming, p.attrAside);
    s := SetAside(first.disk, plan, p.attr, p.attrIncoming, p.attrAside);
    var e := RotatePair(d, plan, p).disk;
    if !second.ok {
      UndoEffect(second.disk, plan, p.live, p.incoming, p.aside);
    }
    SinceSplit(first.disk, second.disk, e, s);
    SinceSplit(d, first.disk, e, s);
  }

  /** An installation first leaves no live file. */
  lemma SetAside(d: Disk, plan: Plan, live: string, incoming: string, aside: string) returns (s: Files)
    requires live != incoming && live != aside && incoming != aside
    requires live in d.files && plan(d.turn)
    ensures Since(d, Install(d, plan, live, incoming, aside).disk, s)
    ensures live !in s && SameOutside(d.files, s, {live, aside})
  {
    var d1 := Rename(d, plan, live, aside).0;
    s := d1.files;
    var e := Install(d, plan, live, incoming, aside).disk;
    assert d1.log == d.log + [s];
    var d2 := Rename(d1, plan, incoming, live).0;
    RenameEnds(d1, plan, incoming, live);
    RenameEnds(d2, plan, aside, live);
    assert d1.log <= e.log;
    assert e.log[|d.log|..][0] == s;
  }

  /**
   * Rotating the index first would not be safe: with the new index in place and
   * the old serial file still live, the next number is that of the first
   * certificate just issued.
   */
  lemma OtherOrderIsUnsafe(oidOf: OidParser, c: Config, d: Disk, plan: Plan, db: Db, requests: seq<Request>)
    requires c.Separate() && Sound(oidOf, c, d.files)
    requires c.dbfile in d.files && c.Index().attr in d.files && c.serialfile in d.files
    requires LoadFiles(oidOf, c, d.files) == Some(db) && RequestsSound(requests)
    requires IssueBatch(db, d.files[c.serialfile].next, requests).Some?
    requires IssueBatch(db, d.files[c.serialfile].next, requests).value.1 > d.files[c.serialfile].next
    requires c.Index().incoming in d.files
    requires d.files[c.Index().incoming] == IndexFile(IssueBatch(db, d.files[c.serialfile].next, requests).value.0.rows)
    requires RotateIndex(d, plan, c.dbfile, "new", "old").ok
    ensures var g := RotateIndex(d, plan, c.dbfile, "new", "old").disk.files;
            && c.dbfile in g && g[c.dbfile].IndexFile? && Load(oidOf, g[c.dbfile].rows, db.unique).Some?
            && c.serialfile in g && g[c.serialfile].SerialFile?
            && LookupSerial(Load(oidOf, g[c.dbfile].rows, db.unique).value, Serial.Text(g[c.serialfile].next))
                 == Some(|db.rows|)
            && (LoadFiles(oidOf, c, g).Some? ==>
                  LookupSerial(LoadFiles(oidOf, c, g).value, Serial.Text(g[c.serialfile].next)) == Some(|db.rows|))
            && !Sound(oidOf, c, g)
  {
    hide GoodIndex, IssueBatch, RotateIndex, Load, Serial.Text, Serial.Key;
    ConfigNamesApart(c);
    assert SuffixesApart("new", "old") by { SixNamesApart(c.dbfile, "new", "old"); }
    LoadedIsGood(oidOf, c, d.files);
    GoodIsAccepted(oidOf, db.rows, db.unique);
    var n := d.files[c.serialfile].next;
    var r := IssueBatch(db, n, requests).value.0;
    BatchIsAhead(oidOf, db, n, requests);
    RotateIndexAllOrNothing(d, plan, c.dbfile, "new", "old");
    RotatedFilesMean(d.files, c.Index());
    var g := RotateIndex(d, plan, c.dbfile, "new", "old").disk.files;
    assert g[c.dbfile] == IndexFile(r.rows) && g[c.serialfile] == SerialFile(n);
    NumberIsTaken(oidOf, r.rows, db.unique, |db.rows|, n);
    NumberIsTaken(oidOf, r.rows, UniqueSubject(c, g), |db.rows|, n);
  }

  lemma BatchIsAhead(oidOf: OidParser, db: Db, n: nat, requests: seq<Request>)
    requires Indexed(db) && Accepted(oidOf, db.rows) && Below(db.rows, n) && RequestsSound(requests)
    requires IssueBatch(db, n, requests).Some? && IssueBatch(db, n, requests).value.1 > n
    ensures var r := IssueBatch(db, n, requests).value.0;
            && !Below(r.rows, n) && Load(oidOf, r.rows, db.unique).Some?
            && |db.rows| < |r.rows| && HasNumber(r.rows[|db.rows|], n)
  {
    hide IssueBatch, Load;
    BatchKeeps(oidOf, db, n, requests);
    var r := IssueBatch(db, n, requests).value.0;
    IndexedHasNoClash(r);
    LoadCorrect(oidOf, r.rows, db.unique);
  }

  lemma NumberIsTaken(oidOf: OidParser, rows: seq<Row>, unique: bool, i: nat, n: nat)
    requires i < |rows| && HasNumber(rows[i], n)
    ensures Load(oidOf, rows, unique).Some? ==>
              LookupSerial(Load(oidOf, rows, unique).value, Serial.Text(n)) == Some(i)
  {
    hide Load, Serial.Text;
    if Load(oidOf, rows, unique).Some? {
      LoadCorrect(oidOf, rows, unique);
      Serial.TextRoundTrip(n);
      LookupIsNumeric(Load(oidOf, rows, unique).value, Serial.Text(n));
    }
  }
}
