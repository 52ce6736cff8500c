/**
 * Saving and rotating as apps.c does it, one system call after the other on
 * mutable files. Each method is proved against its function in DiskModel.
 */
module FileSystem {
  import opened CaModel
  import opened DiskModel

  class FileSys {
    const plan: Plan
    var files: Files
    var turn: nat
    ghost var log: seq<Files>

    ghost function View(): Disk
      reads this
    {
      Disk(files, log, turn)
    }

    constructor (files: Files, plan: Plan)
      ensures View() == Disk(files, [files], 0) && this.plan == plan
    {
      this.files, this.plan, turn, log := files, plan, 0, [files];
    }

    method Rename(from: string, to: string) returns (outcome: Outcome)
      modifies this
      ensures (View(), outcome) == DiskModel.Rename(old(View()), plan, from, to)
    {
      if from !in files {
        outcome := Missing;
      } else if !plan(turn) {
        outcome := Refused;
      } else {
        files := (files - {from})[to := files[from]];
        log := log + [files];
        outcome := Done;
      }
      turn := turn + 1;
    }

    method Write(name: string, content: Content) returns (ok: bool)
      modifies this
      ensures (View(), ok) == DiskModel.Write(old(View()), plan, name, content)
    {
      ok := plan(turn);
      turn := turn + 1;
      if ok {
        ghost var before := files;
        files := files[name := Partial];
        log := log + [files];
        files := files[name := content];
        log := log + [files];
        assert files == before[name := content];
        assert log == old(log) + [before[name := Partial], files];
      }
    }

    /** A call that touches none of the files modelled here, such as writing a certificate. */
    method Attempt() returns (ok: bool)
      modifies this
      ensures ok == plan(old(turn)) && View() == old(View()).(turn := old(turn) + 1)
    {
      ok := plan(turn);
      turn := turn + 1;
    }

    /** save_serial */
    method SaveSerial(serialfile: string, suffix: string, serial: nat) returns (ok: bool)
      modifies this
      ensures (View(), ok) == DiskModel.SaveSerial(old(View()), plan, serialfile, suffix, serial)
    {
      if |serialfile| + |suffix| + 1 >= BSIZE {
        return false;
      }
      ok := Write(Suffixed(serialfile, suffix), SerialFile(serial));
    }

    /** save_index */
    method SaveIndex(dbfile: string, suffix: string, rows: seq<Row>, unique: bool) returns (ok: bool)
      modifies this
      ensures (View(), ok) == DiskModel.SaveIndex(old(View()), plan, dbfile, suffix, rows, unique)
    {
      if |dbfile| + |suffix| + 6 >= BSIZE {
        return false;
      }
      var attrNew := Suffixed(Suffixed(dbfile, "attr"), suffix);
      ok := Write(Suffixed(dbfile, suffix), IndexFile(rows));
      if !ok {
        return false;
      }
      if |rows| == 0 {
        return false;
      }
      ok := Write(attrNew, AttrFile(unique));
    }

    /** rotate_serial */
    method RotateSerial(serialfile: string, newSuffix: string, oldSuffix: string) returns (ok: bool)
      modifies this
      ensures var r := DiskModel.RotateSerial(old(View()), plan, serialfile, newSuffix, oldSuffix);
              View() == r.disk && ok == r.ok
    {
      var i, j := |serialfile| + |oldSuffix|, |serialfile| + |newSuffix|;
      if i > j {
        j := i;
      }
      if j + 1 >= BSIZE {
        return false;
      }
      var buf0, buf1 := Suffixed(serialfile, newSuffix), Suffixed(serialfile, oldSuffix);
      var r := Rename(serialfile, buf1);
      if r.Refused? {
        return false;
      }
      r := Rename(buf0, serialfile);
      if !r.Done? {
        var _ := Rename(buf1, serialfile);
        return false;
      }
      ok := true;
    }

    /** rotate_index */
    method RotateIndex(dbfile: string, newSuffix: string, oldSuffix: string) returns (ok: bool)
      modifies this
      ensures var r := DiskModel.RotateIndex(old(View()), plan, dbfile, newSuffix, oldSuffix);
              View() == r.disk && ok == r.ok
    {
      hide DiskModel.Rename;
      var i, j := |dbfile| + |oldSuffix|, |dbfile| + |newSuffix|;
      if i > j {
        j := i;
      }
      if j + 6 >= BSIZE {
        return false;
      }
      var buf4 := Suffixed(dbfile, "attr");
      var buf2, buf0 := Suffixed(buf4, newSuffix), Suffixed(dbfile, newSuffix);
      var buf1, buf3 := Suffixed(dbfile, oldSuffix), Suffixed(buf4, oldSuffix);
      var r := Rename(dbfile, buf1);
      if r.Refused? {
        return false;
      }
      r := Rename(buf0, dbfile);
      if !r.Done? {
        var _ := Rename(buf1, dbfile);
        return false;
      }
      r := Rename(buf4, buf3);
      if r.Refused? {
        var _ := Rename(dbfile, buf0);
        var _ := Rename(buf1, dbfile);
        return false;
      }
      r := Rename(buf2, buf4);
      if !r.Done? {
        var _ := Rename(buf3, buf4);
        var _ := Rename(dbfile, buf0);
        var _ := Rename(buf1, dbfile);
        return false;
      }
      ok := true;
    }
  }
}
