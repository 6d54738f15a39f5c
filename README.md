# Easy DB Backup: the dump writer, the backup listing and the tool probe

A Dafny model of the deterministic core of the Easy DB Backup WordPress
plugin (class `EasyDBBackup` in `zee-database-backup.php`):

- **the PHP dump writer** (`backup_database_php`). It escapes column values,
  writes one `INSERT` statement per row, one section per table and a fixed
  header. The writer is modelled as methods with the source's nested loops
  over tables, rows and columns. Each method is proved to produce a document
  given by specification functions. Those functions are in turn proved to
  read back: a MySQL-style reader (module `SqlReader`) parses every `INSERT`
  statement of the document back into the table's name and the row's
  columns.
- **the backup listing** (`get_backups`). It filters the scanned directory
  entries, then sorts the kept ones newest first, in place on an array.
- **the mysqldump probe** (`find_mysqldump`). It is a loop with an early
  return over the seven candidate paths.
- **the backup file name** (`create_backup`): `backup-<database>-<Y-m-d-H-i-s>.sql`.
- **the choice `create_backup` makes**: mysqldump when a working one is
  found, the PHP dump otherwise, and the error message of each failure.

The outside world becomes inputs:
- The database is a `TableDump.Database`: a connection error, or the tables
  in `SHOW TABLES` order.
- The directory is a sequence of entries, each with a name, a regular-file
  flag, an mtime and a size.
- The exit status of each `--version` run is a function from path to status.
- The clock is a parameter.
- Whether the backup file exists afterwards is a parameter.

Modules, one per file: `Common` (Option, Result), `SqlReader` (the reading
side, used as the reference partner of the writer), `Escaper`, `TableDump`,
`BackupListing`, `DumpToolProbe`, `BackupNaming`, `BackupCreation`.

## Model

| member | source | states |
|---|---|---|
| Escaper.ReplaceChar | zee-database-backup.php:373-374 | str_replace of one character leaves a string without that character unchanged, and every character of its result comes from the input (other than the replaced one) or from the replacement |
| Escaper.Escape | zee-database-backup.php:373-374 | the two replacements leave text without a backslash or quote unchanged, and add no character other than the backslash |
| Escaper.SerializeValue | zee-database-backup.php:370-378 | a column serializes to the bare token NULL exactly when it is absent; a present column is written between single quotes |
| Escaper.EscapeRoundTrip | zee-database-backup.php:372-375 | reading the escaped body as a MySQL quoted literal gives back the original value and stops exactly at the closing quote the writer adds |
| Escaper.SerializeValueRoundTrip | zee-database-backup.php:370-378 | every serialized column, NULL included, reads back as the same column, with the rest of the text untouched |
| Escaper.EscapeWellEscaped | zee-database-backup.php:372-375 | the escaped body has no unescaped single quote and no dangling backslash, so a value can never end its literal early |
| Escaper.QuotesFirstBreaksRoundTrip | zee-database-backup.php:373-374 | the order of the two replacements matters: quotes first would write a lone quote as a literal that never closes, while the source's order writes it as a backslash and a quote |
| TableDump.Cell | zee-database-backup.php:371 | `isset($row[$i])` fails exactly when the index is past the fetched row or the column is NULL; otherwise the column's own string is used |
| TableDump.DumpDatabase | zee-database-backup.php:328-397 | a failed connection gives the failure result; otherwise the text built by the nested loops is exactly the header followed by one section per table, in SHOW TABLES order |
| TableDump.WriteHeader | zee-database-backup.php:347-351 | the header lines are the tool comment, the database name, the date and the two session directives, in that order |
| TableDump.AppendSection | zee-database-backup.php:354-389 | one pass of the table loop appends exactly that table's section: structure comment, DROP guard, creation statement, data comment, one INSERT per row in fetch order, and a blank line |
| TableDump.AppendInsert | zee-database-backup.php:367-385 | one pass of the row loop appends exactly the INSERT statement of that row: its column_count serialized values in column order, separated by commas with no trailing comma, ending in `);` and a newline |
| TableDump.ValueListRoundTrip | zee-database-backup.php:369-382 | a non-empty comma-separated list of serialized values reads back as the same columns, in order |
| TableDump.RowValuesRoundTrip | zee-database-backup.php:368-385 | the parenthesized value list of an INSERT reads back as its columns, including the empty list of a table without columns |
| TableDump.QuotedNameRoundTrip | zee-database-backup.php:368 | a table name without a backtick reads back from between the backticks of an INSERT statement |
| TableDump.InsertRoundTrip | zee-database-backup.php:368-385 | an INSERT statement reads back as its table's name and exactly column_count columns of the row, NULLs and missing indexes included, leaving the text after it untouched |
| TableDump.CellsOfFullRow | zee-database-backup.php:370-371 | a row fetched with as many columns as the table has is written column for column |
| TableDump.HeaderComesFirst | zee-database-backup.php:347-351 | the document starts with the header, the header ends with the two session directives, and the first table section starts right after it |
| TableDump.SectionPlacement | zee-database-backup.php:353-389 | the section of table i occupies the document from its start up to the start of table i+1's section, so sections follow SHOW TABLES order and never interleave |
| TableDump.RowPlacement | zee-database-backup.php:365-385 | row j of table i is found inside table i's section, after its DROP and CREATE statements and the earlier rows, as an INSERT that reads back as the table name and the row's columns |
| TableDump.EmptyTableSection | zee-database-backup.php:355-367 | a table without rows gets its comments, DROP and CREATE statements and no INSERT statement |
| BackupListing.Extension | zee-database-backup.php:166 | pathinfo's extension: none exactly when the name has no dot, otherwise the dot-free text after the last dot |
| BackupListing.ExtensionOfSuffix | zee-database-backup.php:166 | a name ending in a dot and a dot-free suffix has that suffix as its extension |
| BackupListing.SqlExtensionIffSuffix | zee-database-backup.php:166 | pathinfo reports the extension `sql` exactly when the name ends in `.sql` |
| BackupListing.KeepIffSqlFile | zee-database-backup.php:162-166 | the filter keeps an entry exactly when it is a regular file whose name ends in `.sql`; the exclusion of `.`, `..` and `.htaccess` never decides, and dot-files such as `.sql` and `.old.sql` are kept |
| BackupListing.SqlFileKept | zee-database-backup.php:161-168 | every regular file whose name ends in `.sql` passes the filter, whatever comes before the suffix |
| BackupListing.KeptMembers | zee-database-backup.php:161-180 | the filter keeps exactly the regular files, other than `.`, `..` and `.htaccess`, whose extension is `sql`, each as often as the scan lists it |
| BackupListing.SortNewestFirst | zee-database-backup.php:183-187 | the in-place sort leaves the entries ordered by non-increasing mtime and is a permutation of its input |
| BackupListing.FilterBackups | zee-database-backup.php:161-181 | the `foreach` collects exactly the entries the filter keeps, in scan order |
| BackupListing.SortedCopy | zee-database-backup.php:183-187 | the sorted list is a permutation of the collected entries, ordered newest first |
| BackupListing.GetBackups | zee-database-backup.php:152-190 | a missing directory gives no backups; otherwise the listing is a permutation of the kept entries, holds exactly the entries that pass the filter, and is ordered newest first |
| DumpToolProbe.FirstSuccessIsEarliest | zee-database-backup.php:315-325 | the probe finds nothing exactly when every candidate fails; otherwise it finds the candidate at the position of the last probe, which passed, every earlier candidate having failed |
| DumpToolProbe.ProbeInOrder | zee-database-backup.php:315-325 | the loop returns the first path whose probe exits with 0, and it runs the paths in order up to that one and none after it |
| DumpToolProbe.FindMysqldump | zee-database-backup.php:303-326 | the same for the seven fixed candidate locations, tried in the source's order |
| DumpToolProbe.FoundToolIsTruthy | zee-database-backup.php:305-313 | every candidate location is a truthy PHP string, so a found tool always takes the `if ($mysqldump_path)` branch of create_backup |
| BackupNaming.FileStamp | zee-database-backup.php:210 | `date('Y-m-d-H-i-s')` is at least 19 characters and holds only digits and dashes, so a stamp can never add a dot or a path separator to a file name |
| BackupNaming.BackupFilename | zee-database-backup.php:211 | the file name ends in `.sql`, the suffix the listing keeps, and carries the database name right after the `backup-` prefix |
| BackupNaming.FieldRoundTrip | zee-database-backup.php:210 | a zero-padded date field that fits its width has exactly that width, all digits, and reads back as its number |
| BackupNaming.DashedRoundTrip | zee-database-backup.php:210 | three dash-separated date fields read back as the numbers they were written from |
| BackupNaming.StampRoundTrip | zee-database-backup.php:210 | a `Y-m-d-H-i-s` stamp with a four-digit year is 19 characters and reads back as the clock reading it was made from |
| BackupNaming.FilenameInjective | zee-database-backup.php:210-211 | two backups get the same file name exactly when they are of the same database and taken in the same second |
| BackupNaming.NewBackupIsListed | zee-database-backup.php:210-211 | a backup file this plugin names is always shown by the listing, whatever the database is called |
| BackupCreation.DocumentIsTruthy | zee-database-backup.php:240 | a dump document is never one of PHP's falsy strings, so `!$backup` fires only on the `false` of a failed dump; in this model that is a failed connection (see the mysqli line under "Left out") |
| BackupCreation.CreateBackup | zee-database-backup.php:209-250 | the file name is the stamped backup name; with a working mysqldump its exit status decides failure and there is no fallback to the PHP dump; without one the PHP dump is written, and in this model it fails only on a connection error (see the mysqli line under "Left out"); a missing file afterwards is reported in either case |

## Left out

- The admin JavaScript, `admin_page`, `display_backups`, `register_admin_menu` and `enqueue_admin_assets`: HTML rendering and WordPress hook registration, with no logic to state.
- Nonce and permission checks in `create_backup`, `delete_backup` and the download handler: framework calls whose behaviour is not visible here.
- Building the mysqldump command with `escapeshellarg` and running it with `exec`: the command's exit status is an input, `dumpStatus`, and each `--version` probe is the `probe` function.
- The `mysqli` connection: only `connect_error` is modelled. `set_charset`, a failed query (which can end the request with an uncaught error) and the caught `Exception` that also makes `backup_database_php` return `false` are not; the tables, their creation statements, column counts and rows are inputs.
- The `while` loop that collects table names from `SHOW TABLES`: the table sequence is given already collected.
- Filesystem calls (`scandir`, `is_file`, `filemtime`, `filesize`, `file_put_contents`, `unlink`), the `.htaccess` file the constructor creates, and the download handler: I/O. The directory is a sequence of entries, and each entry's mtime is read once rather than again on every comparison.
- `delete_backup`: the plugin's own handler, but all it does is a nonce and permission check, `sanitize_file_name` (WordPress library code) and `unlink` (file I/O).
- `size_format`, `date_i18n` and `wp_nonce_url`: display formatting. The listing returns the raw entries.
- `date()`: the header's date text and the clock reading for the file name are parameters.
- TableDump.InsertRoundTrip: holds only for table names without a backtick. Table names are written between backticks without escaping, as in the source, so a name holding one does not read back.
- TableDump.RowPlacement: for the same reason, requires a table name without a backtick.
- BackupNaming.StampRoundTrip: stated for years below 10000. `Y` writes wider years with more digits, and the 19-character layout no longer holds.
- BackupListing.SortNewestFirst: states order and permutation only. Whether entries with equal mtime keep their scan order is not stated.
- Restoring through the `mysql` command-line client: the reader is the server's string-literal grammar. By default the client turns `\r\n` into `\n` and takes a NUL as the end of a statement (see its `--binary-mode` option), and the escaper writes both raw, so values holding them do not survive a restore through that client.
- Character encoding: strings are sequences of characters, with no byte encoding and no `utf8` charset conversion.
