/**
 * The files of the certificate authority and the renames that commit them.
 * A plan decides which system calls succeed; the log keeps every state the
 * files have passed through, so a crash leaves one of the logged states.
 */
module DiskModel {
  import opened CaModel

  datatype Content =
    | IndexFile(rows: seq<Row>)
    | AttrFile(unique: bool)
    | SerialFile(next: nat)
    | Partial

  type Files = map<string, Content>

  /** Whether the t-th system call, if it can succeed at all, does. */
  type Plan = nat -> bool

  /** Done, ENOENT, or any other error. */
  datatype Outcome = Done | Missing | Refused

  datatype Disk = Disk(files: Files, log: seq<Files>, turn: nat)

  const BSIZE: nat := 256

  function Suffixed(name: string, suffix: string): string {
    name + "." + suffix
  }

  // ----- the system calls -----

  function Rename(d: Disk, plan: Plan, from: string, to: string): (Disk, Outcome) {
    if from !in d.files then (d.(turn := d.turn + 1), Missing)
    else if !plan(d.turn) then (d.(turn := d.turn + 1), Refused)
    else
      var files := (d.files - {from})[to := d.files[from]];
      (Disk(files, d.log + [files], d.turn + 1), Done)
  }

  /** Opening truncates the file; a crash may find it before it is complete. */
  function Write(d: Disk, plan: Plan, name: string, content: Content): (Disk, bool) {
    if !plan(d.turn) then (d.(turn := d.turn + 1), false)
    else
      var truncated, written := d.files[name := Partial], d.files[name := content];
      (Disk(written, d.log + [truncated, written], d.turn + 1), true)
  }

  // ----- saving and rotating -----

  function SaveSerial(d: Disk, plan: Plan, serialfile: string, suffix: string, serial: nat): (Disk, bool) {
    if |serialfile| + |suffix| + 1 >= BSIZE then (d, false)
    else Write(d, plan, Suffixed(serialfile, suffix), SerialFile(serial))
  }

  /** Writing an index of no rows writes no bytes, which counts as a failure. */
  function SaveIndex(d: Disk, plan: Plan, dbfile: string, suffix: string, rows: seq<Row>, unique: bool): (Disk, bool) {
    if |dbfile| + |suffix| + 6 >= BSIZE then (d, false) else
      var (d1, ok1) := Write(d, plan, Suffixed(dbfile, suffix), IndexFile(rows));
      if !ok1 || rows == [] then (d1, false)
      else Write(d1, plan, Suffixed(Suffixed(dbfile, "attr"), suffix), AttrFile(unique))
  }

  /** How a rotation went: `calls` counts the renames made before any were undone. */
  datatype Rotation = Rotation(disk: Disk, ok: bool, calls: nat)

  /** Sets the live file aside and puts the new one in its place; a missing live file is no error. */
  function Install(d: Disk, plan: Plan, live: string, incoming: string, aside: string): Rotation {
    var (d1, r1) := Rename(d, plan, live, aside);
    if r1.Refused? then Rotation(d1, false, 1) else
      var (d2, r2) := Rename(d1, plan, incoming, live);
      if r2.Done? then Rotation(d2, true, 2)
      else Rotation(Rename(d2, plan, aside, live).0, false, 2)
  }

  function Max(a: nat, b: nat): nat {
    if a > b then a else b
  }

  function RotateSerial(d: Disk, plan: Plan, serialfile: string, newSuffix: string, oldSuffix: string): Rotation {
    if |serialfile| + Max(|newSuffix|, |oldSuffix|) + 1 >= BSIZE then Rotation(d, false, 0)
    else Install(d, plan, serialfile, Suffixed(serialfile, newSuffix), Suffixed(serialfile, oldSuffix))
  }

  /** Puts an installed index back under its new name and the one set aside back in place. */
  function Undo(d: Disk, plan: Plan, live: string, incoming: string, aside: string): Disk {
    Rename(Rename(d, plan, live, incoming).0, plan, aside, live).0
  }

  /** The six files that a rotation of the index moves about. */
  datatype IndexPaths = IndexPaths(live: string, incoming: string, aside: string, attr: string, attrIncoming: string,
                                   attrAside: string) {
    predicate Apart() {
      && live != incoming && live != aside && live != attr && live != attrIncoming && live != attrAside
      && incoming != aside && incoming != attr && incoming != attrIncoming && incoming != attrAside
      && aside != attr && aside != attrIncoming && aside != attrAside
      && attr != attrIncoming && attr != attrAside && attrIncoming != attrAside
    }

    function All(): set<string> {
      {live, incoming, aside, attr, attrIncoming, attrAside}
    }
  }

  function PathsOf(dbfile: string, newSuffix: string, oldSuffix: string): IndexPaths {
    var attr := Suffixed(dbfile, "attr");
    IndexPaths(dbfile, Suffixed(dbfile, newSuffix), Suffixed(dbfile, oldSuffix),
               attr, Suffixed(attr, newSuffix), Suffixed(attr, oldSuffix))
  }

  /** Installs the index, then its attributes; if the second fails the first is undone. */
  function RotatePair(d: Disk, plan: Plan, p: IndexPaths): Rotation {
    var first := Install(d, plan, p.live, p.incoming, p.aside);
    if !first.ok then first else
      var second := Install(first.disk, plan, p.attr, p.attrIncoming, p.attrAside);
      if second.ok then Rotation(second.disk, true, 4)
      else Rotation(Undo(second.disk, plan, p.live, p.incoming, p.aside), false, 2 + second.calls)
  }

  predicate LongName(dbfile: string, newSuffix: string, oldSuffix: string) {
    |dbfile| + Max(|newSuffix|, |oldSuffix|) + 6 >= BSIZE
  }

  function RotateIndex(d: Disk, plan: Plan, dbfile: string, newSuffix: string, oldSuffix: string): Rotation {
    if LongName(dbfile, newSuffix, oldSuffix) then Rotation(d, false, 0)
    else RotatePair(d, plan, PathsOf(dbfile, newSuffix, oldSuffix))
  }

  // ----- which names a rotation needs apart -----

  /** Suffixes under which none of the six names coincide. */
  predicate SuffixesApart(newSuffix: string, oldSuffix: string) {
    && newSuffix != oldSuffix && newSuffix != "attr" && oldSuffix != "attr"
    && newSuffix != "attr." + oldSuffix && oldSuffix != "attr." + newSuffix
  }

  lemma SuffixedEqual(name: string, s: string, t: string)
    ensures Suffixed(name, s) == Suffixed(name, t) <==> s == t
  {
    assert Suffixed(name, s)[|name| + 1..] == s && Suffixed(name, t)[|name| + 1..] == t;
  }

  lemma AttrSuffixed(name: string, s: string)
    ensures Suffixed(Suffixed(name, "attr"), s) == Suffixed(name, "attr." + s)
  {
    assert name + "." + "attr" + "." + s == name + "." + ("attr." + s);
  }

  lemma SixNamesApart(dbfile: string, newSuffix: string, oldSuffix: string)
    ensures PathsOf(dbfile, newSuffix, oldSuffix).Apart() <==> SuffixesApart(newSuffix, oldSuffix)
  {
    AttrSuffixed(dbfile, newSuffix);
    AttrSuffixed(dbfile, oldSuffix);
    var an, ao := "attr." + newSuffix, "attr." + oldSuffix;
    assert an[5..] == newSuffix && ao[5..] == oldSuffix;
    assert |an| == 5 + |newSuffix| && |ao| == 5 + |oldSuffix| && |"attr"| == 4;
    SuffixedEqual(dbfile, newSuffix, oldSuffix);
    SuffixedEqual(dbfile, newSuffix, "attr");
    SuffixedEqual(dbfile, newSuffix, an);
    SuffixedEqual(dbfile, newSuffix, ao);
    SuffixedEqual(dbfile, oldSuffix, "attr");
    SuffixedEqual(dbfile, oldSuffix, an);
    SuffixedEqual(dbfile, oldSuffix, ao);
    SuffixedEqual(dbfile, "attr", an);
    SuffixedEqual(dbfile, "attr", ao);
    SuffixedEqual(dbfile, an, ao);
  }

  // ----- what one installation does -----

  ghost predicate SameOutside(f: Files, g: Files, names: set<string>) {
    forall p :: p !in names ==> (p in f <==> p in g) && (p in f ==> f[p] == g[p])
  }

  /** States logged since `d`. */
  ghost predicate Since(d: Disk, e: Disk, s: Files) {
    |d.log| <= |e.log| && s in e.log[|d.log|..]
  }

  ghost predicate Extends(d: Disk, e: Disk) {
    d.log <= e.log && d.turn <= e.turn
  }

  ghost predicate WorksFrom(plan: Plan, t: nat) {
    forall u :: u >= t ==> plan(u)
  }

  /** A content is kept: it is at its live name or set aside. */
  ghost predicate Kept(s: Files, live: string, aside: string, content: Content) {
    (live in s && s[live] == content) || (aside in s && s[aside] == content)
  }

  /** The files after a complete installation. */
  function Installed(f: Files, live: string, incoming: string, aside: string): Files
    requires live in f && incoming in f
  {
    (f - {incoming})[aside := f[live]][live := f[incoming]]
  }

  lemma InstallEffect(d: Disk, plan: Plan, live: string, incoming: string, aside: string)
    requires live != incoming && live != aside && incoming != aside
    requires live in d.files
    ensures var r := Install(d, plan, live, incoming, aside);
            && Extends(d, r.disk)
            && (r.ok <==> incoming in d.files && plan(d.turn) && plan(d.turn + 1))
            && (r.ok ==> r.disk.files == Installed(d.files, live, incoming, aside) && r.calls == 2)
            && (!r.ok ==>
                  SameOutside(d.files, r.disk.files, {live, aside}) && Kept(r.disk.files, live, aside, d.files[live]))
            && (!r.ok && live in r.disk.files ==> r.disk.files[live] == d.files[live])
            && (!r.ok && WorksFrom(plan, d.turn + r.calls) ==> SameOutside(d.files, r.disk.files, {aside}))
  {
  }

  /** The live file is the new one, what was live is set aside, and nothing else is touched. */
  ghost predicate Replaced(f: Files, g: Files, live: string, incoming: string, aside: string, content: Content) {
    && live in g && g[live] == content && incoming !in g
    && (live in f ==> aside in g && g[aside] == f[live])
    && (live !in f ==> (aside in g <==> aside in f) && (aside in f ==> g[aside] == f[aside]))
    && SameOutside(f, g, {live, incoming, aside})
  }

  /** When an installation succeeds, whether or not there was a live file, and what it leaves then. */
  lemma InstallOutcome(d: Disk, plan: Plan, live: string, incoming: string, aside: string)
    requires live != incoming && live != aside && incoming != aside
    ensures var r := Install(d, plan, live, incoming, aside);
            && (r.ok <==> incoming in d.files && (live in d.files ==> plan(d.turn)) && plan(d.turn + 1))
            && (r.ok ==>
                  && r.disk.turn == d.turn + 2
                  && Replaced(d.files, r.disk.files, live, incoming, aside, d.files[incoming]))
  {
  }

  /** When an index is saved, and what that leaves. */
  lemma SaveIndexOutcome(d: Disk, plan: Plan, dbfile: string, rows: seq<Row>, unique: bool)
    ensures var (e, ok) := SaveIndex(d, plan, dbfile, "new", rows, unique);
            var p := PathsOf(dbfile, "new", "old");
            && (ok <==> |dbfile| <= 246 && rows != [] && plan(d.turn) && plan(d.turn + 1))
            && (ok ==>
                  && e.turn == d.turn + 2
                  && p.incoming in e.files && e.files[p.incoming] == IndexFile(rows)
                  && p.attrIncoming in e.files && e.files[p.attrIncoming] == AttrFile(unique)
                  && SameOutside(d.files, e.files, {p.incoming, p.attrIncoming}))
  {
    SixNamesApart(dbfile, "new", "old");
  }

  lemma SaveSerialOutcome(d: Disk, plan: Plan, serialfile: string, next: nat)
    ensures var (e, ok) := SaveSerial(d, plan, serialfile, "new", next);
            var incoming := Suffixed(serialfile, "new");
            && (ok <==> |serialfile| <= 251 && plan(d.turn))
            && (ok ==>
                  && e.turn == d.turn + 1
                  && incoming in e.files && e.files[incoming] == SerialFile(next)
                  && SameOutside(d.files, e.files, {incoming}))
  {
  }

  /** When a rotation of both files of an index succeeds, with or without live attributes. */
  lemma RotateIndexOutcome(d: Disk, plan: Plan, dbfile: string)
    requires dbfile in d.files
    ensures var r := RotateIndex(d, plan, dbfile, "new", "old");
            var p := PathsOf(dbfile, "new", "old");
            && p.Apart()
            && (r.ok <==>
                  && |dbfile| <= 246 && p.incoming in d.files && p.attrIncoming in d.files
                  && plan(d.turn) && plan(d.turn + 1) && (p.attr in d.files ==> plan(d.turn + 2)) && plan(d.turn + 3))
            && (r.ok ==>
                  && p.live in r.disk.files && r.disk.files[p.live] == d.files[p.incoming]
                  && p.attr in r.disk.files && r.disk.files[p.attr] == d.files[p.attrIncoming]
                  && p.aside in r.disk.files && r.disk.files[p.aside] == d.files[p.live]
                  && (p.attr in d.files ==> p.attrAside in r.disk.files && r.disk.files[p.attrAside] == d.files[p.attr])
                  && SameOutside(d.files, r.disk.files, p.All()))
  {
    hide Install, Undo;
    SixNamesApart(dbfile, "new", "old");
    var p := PathsOf(dbfile, "new", "old");
    InstallOutcome(d, plan, p.live, p.incoming, p.aside);
    var first := Install(d, plan, p.live, p.incoming, p.aside);
    if first.ok {
      InstallOutcome(first.disk, plan, p.attr, p.attrIncoming, p.attrAside);
    }
  }

  lemma RotateSerialOutcome(d: Disk, plan: Plan, serialfile: string)
    requires serialfile in d.files
    ensures var r := RotateSerial(d, plan, serialfile, "new", "old");
            var incoming, aside := Suffixed(serialfile, "new"), Suffixed(serialfile, "old");
            && (r.ok <==> |serialfile| <= 251 && incoming in d.files && plan(d.turn) && plan(d.turn + 1))
            && (r.ok ==>
                  && r.disk.turn == d.turn + 2
                  && Replaced(d.files, r.disk.files, serialfile, incoming, aside, d.files[incoming]))
  {
    hide Install;
    SuffixedEqual(serialfile, "new", "old");
    InstallOutcome(d, plan, serialfile, Suffixed(serialfile, "new"), Suffixed(serialfile, "old"));
  }

  lemma InstallStates(d: Disk, plan: Plan, live: string, incoming: string, aside: string, s: Files)
    requires live != incoming && live != aside && incoming != aside
    requires live in d.files
    requires Since(d, Install(d, plan, live, incoming, aside).disk, s)
    ensures SameOutside(d.files, s, {live, incoming, aside})
    ensures Kept(s, live, aside, d.files[live])
    ensures live in s ==> s[live] == d.files[live] || (incoming in d.files && s[live] == d.files[incoming])
  {
  }

  /** The weaker account when there may be no live file: a stale file set aside earlier can come back. */
  lemma InstallOrigins(d: Disk, plan: Plan, live: string, incoming: string, aside: string, s: Files)
    requires live != incoming && live != aside && incoming != aside
    requires var e := Install(d, plan, live, incoming, aside).disk;
             Since(d, e, s) || s == e.files
    ensures SameOutside(d.files, s, {live, incoming, aside})
    ensures live in s ==>
              || (live in d.files && s[live] == d.files[live])
              || (incoming in d.files && s[live] == d.files[incoming])
              || (aside in d.files && s[live] == d.files[aside])
    ensures aside in s ==>
              || (live in d.files && s[aside] == d.files[live])
              || (aside in d.files && s[aside] == d.files[aside])
  {
  }

  lemma UndoEffect(d: Disk, plan: Plan, live: string, incoming: string, aside: string)
    requires live != incoming && live != aside && incoming != aside
    requires live in d.files && incoming !in d.files && aside in d.files
    ensures var e := Undo(d, plan, live, incoming, aside);
            && Extends(d, e)
            && SameOutside(d.files, e.files, {live, incoming, aside})
            && Kept(e.files, live, aside, d.files[aside])
            && (WorksFrom(plan, d.turn) ==>
                  live in e.files && e.files[live] == d.files[aside] &&
                  incoming in e.files && e.files[incoming] == d.files[live])
  {
  }

  lemma UndoStates(d: Disk, plan: Plan, live: string, incoming: string, aside: string, s: Files)
    requires live != incoming && live != aside && incoming != aside
    requires live in d.files && incoming !in d.files && aside in d.files
    requires var e := Undo(d, plan, live, incoming, aside);
             Since(d, e, s) || s == e.files
    ensures SameOutside(d.files, s, {live, incoming, aside})
    ensures Kept(s, live, aside, d.files[aside])
    ensures live in s ==> s[live] == d.files[live] || s[live] == d.files[aside]
  {
  }

  lemma SinceSplit(d: Disk, m: Disk, e: Disk, s: Files)
    requires Extends(d, m) && Extends(m, e)
    ensures Since(d, e, s) <==> Since(d, m, s) || Since(m, e, s)
  {
    assert e.log[|d.log|..] == m.log[|d.log|..] + e.log[|m.log|..];
  }

  // ----- rotating the index -----

  lemma InstallTurn(d: Disk, plan: Plan, live: string, incoming: string, aside: string)
    ensures var r := Install(d, plan, live, incoming, aside);
            Extends(d, r.disk) && d.turn + r.calls <= r.disk.turn && r.calls <= 2 &&
              (r.ok ==> r.disk.turn == d.turn + 2)
  {
  }

  /** The files after a complete rotation. */
  function RotatedFiles(f: Files, p: IndexPaths): Files
    requires p.Apart() && {p.live, p.incoming, p.attr, p.attrIncoming} <= f.Keys
  {
    var f1 := Installed(f, p.live, p.incoming, p.aside);
    Installed(f1, p.attr, p.attrIncoming, p.attrAside)
  }

  /** A complete rotation makes both new files live and keeps both former ones. */
  lemma RotatedFilesMean(f: Files, p: IndexPaths)
    requires p.Apart() && {p.live, p.incoming, p.attr, p.attrIncoming} <= f.Keys
    ensures var g := RotatedFiles(f, p);
            && {p.live, p.aside, p.attr, p.attrAside} <= g.Keys
            && g[p.live] == f[p.incoming] && g[p.attr] == f[p.attrIncoming]
            && g[p.aside] == f[p.live] && g[p.attrAside] == f[p.attr]
            && p.incoming !in g && p.attrIncoming !in g
            && SameOutside(f, g, p.All())
  {
  }

  /**
   * rotate_index is all or nothing: it succeeds exactly when the name fits, both
   * new files are there and the four renames work; when it fails and undoing works, every file
   * but the two set-aside names is as before.
   */
  lemma RotateIndexAllOrNothing(d: Disk, plan: Plan, dbfile: string, newSuffix: string, oldSuffix: string)
    requires SuffixesApart(newSuffix, oldSuffix)
    requires dbfile in d.files && Suffixed(dbfile, "attr") in d.files
    ensures PathsOf(dbfile, newSuffix, oldSuffix).Apart()
    ensures var r := RotateIndex(d, plan, dbfile, newSuffix, oldSuffix);
            var p := PathsOf(dbfile, newSuffix, oldSuffix);
            && (r.ok <==>
                  && !LongName(dbfile, newSuffix, oldSuffix)
                  && p.incoming in d.files && p.attrIncoming in d.files
                  && plan(d.turn) && plan(d.turn + 1) && plan(d.turn + 2) && plan(d.turn + 3))
            && (r.ok ==> r.disk.files == RotatedFiles(d.files, p))
            && (!r.ok && WorksFrom(plan, d.turn + r.calls) ==>
                SameOutside(d.files, r.disk.files, {p.aside, p.attrAside}))
  {
    hide Install, Undo;
    SixNamesApart(dbfile, newSuffix, oldSuffix);
    var p := PathsOf(dbfile, newSuffix, oldSuffix);
    var first := Install(d, plan, p.live, p.incoming, p.aside);
    InstallEffect(d, plan, p.live, p.incoming, p.aside);
    InstallTurn(d, plan, p.live, p.incoming, p.aside);
    if first.ok {
      var second := Install(first.disk, plan, p.attr, p.attrIncoming, p.attrAside);
      InstallEffect(first.disk, plan, p.attr, p.attrIncoming, p.attrAside);
      InstallTurn(first.disk, plan, p.attr, p.attrIncoming, p.attrAside);
      if !second.ok {
        UndoEffect(second.disk, plan, p.live, p.incoming, p.aside);
      }
    }
  }

  /** A state on the way is logged by the first installation, by the second, or while undoing. */
  lemma RotationStates(d: Disk, plan: Plan, p: IndexPaths, s: Files)
    requires p.Apart() && p.live in d.files
    ensures var first := Install(d, plan, p.live, p.incoming, p.aside);
            var second := Install(first.disk, plan, p.attr, p.attrIncoming, p.attrAside);
            var e := RotatePair(d, plan, p).disk;
            && Extends(d, e)
            && (first.ok && !second.ok ==>
                  && p.live in second.disk.files && p.incoming !in second.disk.files
                  && p.aside in second.disk.files)
            && (Since(d, e, s) ==>
                  || Since(d, first.disk, s)
                  || (first.ok && Since(first.disk, second.disk, s))
                  || (first.ok && !second.ok && Since(second.disk, e, s)))
  {
    hide Install, Undo;
    var first := Install(d, plan, p.live, p.incoming, p.aside);
    var second := Install(first.disk, plan, p.attr, p.attrIncoming, p.attrAside);
    var e := RotatePair(d, plan, p).disk;
    InstallEffect(d, plan, p.live, p.incoming, p.aside);
    if first.ok {
      InstallTurn(first.disk, plan, p.attr, p.attrIncoming, p.attrAside);
      InstallOrigins(first.disk, plan, p.attr, p.attrIncoming, p.attrAside, second.disk.files);
      if second.ok {
        SinceSplit(d, first.disk, second.disk, s);
      } else {
        UndoEffect(second.disk, plan, p.live, p.incoming, p.aside);
        SinceSplit(first.disk, second.disk, e, s);
        SinceSplit(d, first.disk, e, s);
      }
    }
  }

  /**
   * Under every pattern of failing renames, those that undo included, and after
   * a crash at any point: the former index and the former attributes survive at
   * their live or set-aside name, and no other file is touched.
   */
  lemma RotateIndexSurvives(d: Disk, plan: Plan, dbfile: string, newSuffix: string, oldSuffix: string, s: Files)
    requires SuffixesApart(newSuffix, oldSuffix)
    requires dbfile in d.files && Suffixed(dbfile, "attr") in d.files
    requires Since(d, RotateIndex(d, plan, dbfile, newSuffix, oldSuffix).disk, s)
    ensures var p := PathsOf(dbfile, newSuffix, oldSuffix);
            && Kept(s, p.live, p.aside, d.files[p.live])
            && Kept(s, p.attr, p.attrAside, d.files[p.attr])
            && SameOutside(d.files, s, p.All())
  {
    hide Install, Undo;
    SixNamesApart(dbfile, newSuffix, oldSuffix);
    var p := PathsOf(dbfile, newSuffix, oldSuffix);
    var first := Install(d, plan, p.live, p.incoming, p.aside);
    var second := Install(first.disk, plan, p.attr, p.attrIncoming, p.attrAside);
    InstallEffect(d, plan, p.live, p.incoming, p.aside);
    RotationStates(d, plan, p, s);
    if Since(d, first.disk, s) {
      InstallStates(d, plan, p.live, p.incoming, p.aside, s);
    } else {
      InstallEffect(first.disk, plan, p.attr, p.attrIncoming, p.attrAside);
      if Since(first.disk, second.disk, s) {
        InstallStates(first.disk, plan, p.attr, p.attrIncoming, p.attrAside, s);
      } else {
        UndoStates(second.disk, plan, p.live, p.incoming, p.aside, s);
      }
    }
  }

  /**
   * Where the live files come from, with or without live attributes: the index
   * is the former or the new one, the attributes one of three versions.
   */
  ghost predicate ComesFrom(f: Files, s: Files, p: IndexPaths) {
    && SameOutside(f, s, p.All())
    && (p.live in s ==>
          || (p.live in f && s[p.live] == f[p.live])
          || (p.incoming in f && s[p.live] == f[p.incoming]))
    && (p.live in f && p.live !in s ==> p.aside in s && s[p.aside] == f[p.live])
    && (p.attr in s ==>
          || (p.attr in f && s[p.attr] == f[p.attr])
          || (p.attrIncoming in f && s[p.attr] == f[p.attrIncoming])
          || (p.attrAside in f && s[p.attr] == f[p.attrAside]))
    && (p.attrAside in s ==>
          || (p.attr in f && s[p.attrAside] == f[p.attr])
          || (p.attrAside in f && s[p.attrAside] == f[p.attrAside]))
  }

  lemma RotatePairOrigins(d: Disk, plan: Plan, p: IndexPaths, s: Files)
    requires p.Apart() && p.live in d.files
    requires var e := RotatePair(d, plan, p).disk; Since(d, e, s)
    ensures ComesFrom(d.files, s, p)
  {
    hide Install, Undo;
    var first := Install(d, plan, p.live, p.incoming, p.aside);
    var second := Install(first.disk, plan, p.attr, p.attrIncoming, p.attrAside);
    InstallEffect(d, plan, p.live, p.incoming, p.aside);
    RotationStates(d, plan, p, s);
    if Since(d, first.disk, s) {
      InstallStates(d, plan, p.live, p.incoming, p.aside, s);
    } else if Since(first.disk, second.disk, s) {
      InstallOrigins(first.disk, plan, p.attr, p.attrIncoming, p.attrAside, s);
    } else {
      InstallOrigins(first.disk, plan, p.attr, p.attrIncoming, p.attrAside, second.disk.files);
      UndoStates(second.disk, plan, p.live, p.incoming, p.aside, s);
    }
  }
}
