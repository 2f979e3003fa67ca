/**
 * Finding the budget spreadsheet by name. The file service is a value: the files it lists,
 * in its own order. The query it is sent asks for files with exactly that name, of the
 * spreadsheet type and not in the trash; the first file listed is used.
 */
module Drive {
  import opened Wrappers

  datatype DriveFile = DriveFile(id: string, name: string, mimeType: string, trashed: bool)

  const SpreadsheetMime := "application/vnd.google-apps.spreadsheet"

  /** The file satisfies the listing query. */
  predicate MatchesQuery(f: DriveFile, name: string) {
    f.name == name && f.mimeType == SpreadsheetMime && !f.trashed
  }

  /** k is the first file the query selects. */
  ghost predicate FirstMatch(files: seq<DriveFile>, name: string, k: int) {
    && 0 <= k < |files|
    && MatchesQuery(files[k], name)
    && forall j :: 0 <= j < k ==> !MatchesQuery(files[j], name)
  }

  /** The listing the service answers the query with, in its order. */
  function QueryFiles(files: seq<DriveFile>, name: string): (items: seq<DriveFile>)
    ensures forall f :: f in items <==> f in files && MatchesQuery(f, name)
    ensures items != [] ==> exists k :: FirstMatch(files, name, k) && items[0] == files[k]
    decreases |files|
  {
    if files == [] then []
    else if MatchesQuery(files[0], name) then
      assert FirstMatch(files, name, 0);
      [files[0]] + QueryFiles(files[1..], name)
    else
      var rest := QueryFiles(files[1..], name);
      assert rest != [] ==> exists k :: FirstMatch(files, name, k) && rest[0] == files[k] by {
        if rest != [] {
          var k :| FirstMatch(files[1..], name, k) && rest[0] == files[1..][k];
          assert FirstMatch(files, name, k + 1);
        }
      }
      rest
  }

  /** The id of the first listed spreadsheet with that name, or nothing. */
  function GetSheetIdWithSpecificName(files: seq<DriveFile>, name: string): (r: Option<string>)
    ensures r.None? <==> forall f :: f in files ==> !MatchesQuery(f, name)
    ensures r.Some? ==> exists k :: FirstMatch(files, name, k) && r.value == files[k].id
  {
    var items := QueryFiles(files, name);
    if items == [] then None
    else
      assert items[0] in items;
      Some(items[0].id)
  }

  /** Trashed files, and files of other types, never decide the answer. */
  lemma OnlyLiveSpreadsheetsCount(files: seq<DriveFile>, name: string, f: DriveFile)
    requires !MatchesQuery(f, name)
    ensures GetSheetIdWithSpecificName(files + [f], name) == GetSheetIdWithSpecificName(files, name)
    ensures GetSheetIdWithSpecificName([f] + files, name) == GetSheetIdWithSpecificName(files, name)
  {
    QueryAppend(files, [f], name);
    QueryAppend([f], files, name);
  }

  lemma {:induction false} QueryAppend(a: seq<DriveFile>, b: seq<DriveFile>, name: string)
    ensures QueryFiles(a + b, name) == QueryFiles(a, name) + QueryFiles(b, name)
    decreases |a|
  {
    if a != [] {
      assert (a + b)[1..] == a[1..] + b;
      QueryAppend(a[1..], b, name);
    } else {
      assert a + b == b;
    }
  }
}
