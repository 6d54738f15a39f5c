/**
 * The backup listing of EasyDBBackup::get_backups: scan the backup
 * directory, keep the regular `.sql` files, and sort them newest first.
 *
 * The directory is an abstract input: absent, or its entries in scan order,
 * each with its name, whether it is a regular file, its modification time
 * and its size, read once.
 */
module BackupListing {
  import opened Common

  /** A scanned directory entry; its size is carried into the listing unformatted. */
  datatype Entry = Entry(name: string, isFile: bool, mtime: int, size: nat)

  /**
   * The extension PHP's pathinfo reports for a directory-free file name:
   * the text after the last dot, or none when there is no dot.
   */
  function Extension(name: string): (r: Option<string>)
    ensures r.None? <==> '.' !in name
    ensures r.Some? ==> '.' !in r.value && |r.value| < |name|
                        && name == name[..|name| - |r.value| - 1] + "." + r.value
  {
    if |name| == 0 then None
    else if name[|name| - 1] == '.' then Some("")
    else match Extension(name[..|name| - 1])
      case None => None
      case Some(e) => Some(e + [name[|name| - 1]])
  }

  /** A name ending in a dot and a dot-free suffix has that suffix as its extension. */
  lemma {:induction false} ExtensionOfSuffix(stem: string, ext: string)
    requires '.' !in ext
    ensures Extension(stem + "." + ext) == Some(ext)
  {
    if ext != [] {
      var init, last := ext[..|ext| - 1], ext[|ext| - 1];
      assert ext == init + [last];
      LastCharSplit(stem + ".", init, last);
      ExtensionOfSuffix(stem, init);
    }
  }

  /** Where the last character of a concatenation ending in one character is, and what comes before it. */
  lemma LastCharSplit(a: string, b: string, c: char)
    ensures var s := a + (b + [c]);
      |s| > 0 && s[|s| - 1] == c && s[..|s| - 1] == a + b
  {
  }

  /** A name that ends in `.sql`. */
  predicate EndsInSql(name: string)
  {
    |name| >= 4 && name[|name| - 4..] == ".sql"
  }

  /** Whether a directory entry is listed as a backup. */
  predicate Keep(e: Entry)
  {
    && e.name != "." && e.name != ".." && e.name != ".htaccess" && e.isFile
    && Extension(e.name) == Some("sql")
  }

  /** The entries that are listed, in scan order. */
  function Kept(es: seq<Entry>): seq<Entry>
  {
    if es == [] then []
    else Kept(es[..|es| - 1]) + (if Keep(es[|es| - 1]) then [es[|es| - 1]] else [])
  }

  /** The extension is `sql` exactly when the name ends in `.sql`. */
  lemma SqlExtensionIffSuffix(name: string)
    ensures Extension(name) == Some("sql") <==> EndsInSql(name)
  {
    if EndsInSql(name) {
      var stem := name[..|name| - 4];
      assert name == stem + "." + "sql";
      ExtensionOfSuffix(stem, "sql");
    }
  }

  /**
   * The exclusion of `.`, `..` and `.htaccess` never decides anything: none
   * of them has the `sql` extension, so an entry is listed exactly when it is
   * a regular file whose name ends in `.sql`, dot-files such as `.sql` and
   * `.old.sql` included.
   */
  lemma KeepIffSqlFile(e: Entry)
    ensures Keep(e) <==> e.isFile && EndsInSql(e.name)
  {
    SqlExtensionIffSuffix(e.name);
  }

  /** Every regular file whose name ends in `.sql` is listed, whatever comes before. */
  lemma SqlFileKept(stem: string, mtime: int, size: nat)
    ensures Keep(Entry(stem + ".sql", true, mtime, size))
  {
    var name := stem + ".sql";
    assert name[|name| - 4..] == ".sql";
    KeepIffSqlFile(Entry(name, true, mtime, size));
  }

  /** The kept entries are exactly the listed ones, in scan order, each as often as scanned. */
  lemma {:induction false} KeptMembers(es: seq<Entry>)
    ensures forall e :: e in Kept(es) <==> e in es && Keep(e)
    ensures forall e :: multiset(Kept(es))[e] == if Keep(e) then multiset(es)[e] else 0
  {
    if es != [] {
      var init, last := es[..|es| - 1], es[|es| - 1];
      assert es == init + [last];
      KeptMembers(init);
    }
  }

  /** Modification times never increase along the sequence: newest first. */
  predicate NewestFirst(s: seq<Entry>)
  {
    forall k, l :: 0 <= k < l < |s| ==> s[k].mtime >= s[l].mtime
  }

  /**
   * The usort call with the comparator `mtime(b) - mtime(a)`, as an
   * insertion sort in place.
   */
  method SortNewestFirst(a: array<Entry>)
    modifies a
    ensures NewestFirst(a[..])
    ensures multiset(a[..]) == multiset(old(a[..]))
  {
    var i := 0;
    while i < a.Length
      invariant 0 <= i <= a.Length
      invariant forall k, l :: 0 <= k < l < i ==> a[k].mtime >= a[l].mtime
      invariant multiset(a[..]) == multiset(old(a[..]))
    {
      var j := i;
      while j > 0 && a[j - 1].mtime < a[j].mtime
        invariant 0 <= j <= i
        invariant forall k, l :: 0 <= k < l <= i && l != j ==> a[k].mtime >= a[l].mtime
        invariant multiset(a[..]) == multiset(old(a[..]))
      {
        SwapDown(a, j);
        j := j - 1;
      }
      i := i + 1;
    }
  }

  /** Exchanges the entries at `p - 1` and `p`. */
  method SwapDown(a: array<Entry>, p: int)
    requires 0 < p < a.Length
    modifies a
    ensures a[p - 1] == old(a[p]) && a[p] == old(a[p - 1])
    ensures forall m :: 0 <= m < a.Length && m != p - 1 && m != p ==> a[m] == old(a[m])
    ensures multiset(a[..]) == multiset(old(a[..]))
  {
    a[p - 1], a[p] := a[p], a[p - 1];
  }

  /**
   * The listing: no directory gives no backups; otherwise the kept entries,
   * each exactly as often as the scan holds it, newest first.
   */
  method GetBackups(dir: Option<seq<Entry>>) returns (backups: seq<Entry>)
    ensures dir.None? ==> backups == []
    ensures dir.Some? ==> multiset(backups) == multiset(Kept(dir.value))
    ensures forall e :: e in backups <==> dir.Some? && e in dir.value && Keep(e)
    ensures NewestFirst(backups)
  {
    if dir.None? {
      return [];
    }
    var kept := FilterBackups(dir.value);
    backups := SortedCopy(kept);
    SameMembers(backups, kept);
    KeptMembers(dir.value);
  }

  /** The `foreach` over the scanned entries: appends each listed one, in scan order. */
  method FilterBackups(files: seq<Entry>) returns (kept: seq<Entry>)
    ensures kept == Kept(files)
  {
    kept := [];
    var i := 0;
    while i < |files|
      invariant 0 <= i <= |files|
      invariant kept == Kept(files[..i])
    {
      assert files[..i + 1][..i] == files[..i];
      if Keep(files[i]) {
        kept := kept + [files[i]];
      }
      i := i + 1;
    }
    assert files[..|files|] == files;
  }

  /** The collected entries copied into an array and sorted there. */
  method SortedCopy(kept: seq<Entry>) returns (sorted: seq<Entry>)
    ensures multiset(sorted) == multiset(kept)
    ensures NewestFirst(sorted)
  {
    var a := new Entry[|kept|](k requires 0 <= k < |kept| => kept[k]);
    assert a[..] == kept;
    SortNewestFirst(a);
    sorted := a[..];
  }

  /** Sequences with the same multiset have the same members. */
  lemma SameMembers(x: seq<Entry>, y: seq<Entry>)
    requires multiset(x) == multiset(y)
    ensures forall e :: e in x <==> e in y
  {
    forall e
      ensures e in x <==> e in y
    {
      assert e in x <==> e in multiset(x);
      assert e in y <==> e in multiset(y);
    }
  }
}
