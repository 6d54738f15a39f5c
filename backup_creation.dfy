/**
 * The decision EasyDBBackup::create_backup makes once the request is
 * authorised: name the file, use mysqldump when a working one is found, and
 * otherwise write the PHP dump.  Running mysqldump and writing the file are
 * not modelled: `dumpStatus` is the exit status the mysqldump command would
 * have and `fileExists` whether the file is on disk afterwards.
 */
module BackupCreation {
  import opened Common
  import TableDump
  import DumpToolProbe
  import BackupNaming

  /** How the backup file was written. */
  datatype Writer = Mysqldump(tool: string) | PhpDump(content: string)

  datatype CreateOutcome = Created(filename: string, writer: Writer) | Failed(message: string)

  const MysqldumpFailed := "Failed to create database backup using mysqldump."
  const PhpDumpFailed := "Failed to create database backup."
  const FileMissing := "Failed to create backup file."

  /** A dump document is never falsy, so `!$backup` fires only on the `false` of a failed dump. */
  lemma DocumentIsTruthy(dbName: string, date: string, ts: seq<TableDump.Table>)
    ensures !Falsy(TableDump.Document(dbName, date, ts))
  {
    var doc := TableDump.Document(dbName, date, ts);
    assert doc[0] == '-' && doc[1] == '-';
  }

  method CreateBackup(dbName: string, now: BackupNaming.Timestamp, probe: string -> int, dumpStatus: int,
                      db: TableDump.Database, dumpDate: string, fileExists: bool)
    returns (r: CreateOutcome)
    ensures r.Created? ==> r.filename == BackupNaming.BackupFilename(dbName, now)
    // a working mysqldump is always used, and its failure is final: no fallback
    ensures DumpToolProbe.FirstSuccess(DumpToolProbe.Candidates, probe).Some? ==>
      var tool := DumpToolProbe.FirstSuccess(DumpToolProbe.Candidates, probe).value;
      r == (if dumpStatus != 0 then Failed(MysqldumpFailed)
            else if !fileExists then Failed(FileMissing)
            else Created(BackupNaming.BackupFilename(dbName, now), Mysqldump(tool)))
    // without one, the PHP dump is written; of its failures only a failed connection is modelled
    ensures DumpToolProbe.FirstSuccess(DumpToolProbe.Candidates, probe).None? ==>
      r == (if db.ConnectError? then Failed(PhpDumpFailed)
            else if !fileExists then Failed(FileMissing)
            else Created(BackupNaming.BackupFilename(dbName, now),
                         PhpDump(TableDump.Document(dbName, dumpDate, db.tables))))
  {
    var filename := BackupNaming.BackupFilename(dbName, now);
    var tool, _ := DumpToolProbe.FindMysqldump(probe);
    DumpToolProbe.FoundToolIsTruthy(probe);
    if tool.Some? && !Falsy(tool.value) {
      if dumpStatus != 0 {
        return Failed(MysqldumpFailed);
      }
    } else {
      var backup := TableDump.DumpDatabase(db, dbName, dumpDate);
      if db.Connected? {
        DocumentIsTruthy(dbName, dumpDate, db.tables);
      }
      if backup.Err? || Falsy(backup.value) {
        return Failed(PhpDumpFailed);
      }
      if !fileExists {
        return Failed(FileMissing);
      }
      return Created(filename, PhpDump(backup.value));
    }
    if !fileExists {
      return Failed(FileMissing);
    }
    return Created(filename, Mysqldump(tool.value));
  }
}
