/** The archive-name classifier of zipextracter.py (`supported_zip_type`). */
module ZipExtracter {
  import opened Text

  /** The last path component: the text after the last '/' (`fname.rpartition('/')[2]`). */
  function LastComponent(fname: string): string {
    AfterLast(fname, '/')
  }

  /**
   * `supported_zip_type`: the last component contains "zip", "rar" or "7z"
   * anywhere in it. It looks for substrings, not at the extension.
   */
  function SupportedZipType(fname: string): bool {
    var extension := LastComponent(fname);
    Contains(extension, "zip") || Contains(extension, "rar") || Contains(extension, "7z")
  }

  /** The classifier accepts exactly the names whose last component has one of the three markers at some position. */
  lemma SupportedIff(fname: string)
    ensures SupportedZipType(fname) <==>
      exists i :: OccursAt(LastComponent(fname), "zip", i)
               || OccursAt(LastComponent(fname), "rar", i)
               || OccursAt(LastComponent(fname), "7z", i)
  {
    var e := LastComponent(fname);
    ContainsIff(e, "zip");
    ContainsIff(e, "rar");
    ContainsIff(e, "7z");
  }

  /** Only the last component matters: a directory prefix ending in '/' changes nothing. */
  lemma DirectoryPrefixIrrelevant(dir: string, name: string)
    requires |dir| > 0 && dir[|dir| - 1] == '/'
    ensures SupportedZipType(dir + name) == SupportedZipType(name)
  {
    AfterLastOfPrefixed(dir, name, '/');
  }

  /** With no '/', the whole name is examined. */
  lemma WholeNameWithoutSlash(fname: string)
    requires '/' !in fname
    ensures SupportedZipType(fname) ==
      (Contains(fname, "zip") || Contains(fname, "rar") || Contains(fname, "7z"))
  {
    AfterLastWithout(fname, '/');
  }

  /**
   * The match is on substrings, not suffixes: "zip" anywhere in a last
   * component is accepted, as in "zipped.txt".
   */
  lemma SubstringAccepted(before: string, after: string)
    requires '/' !in before && '/' !in after
    ensures SupportedZipType(before + "zip" + after)
  {
    var name := before + "zip" + after;
    assert '/' !in name;
    AfterLastWithout(name, '/');
    assert name[|before|..|before| + 3] == "zip";
    assert OccursAt(name, "zip", |before|);
    ContainsIff(name, "zip");
  }

  /** A name with none of the markers, such as "a.txt", is rejected. */
  lemma PlainNameRejected()
    ensures !SupportedZipType("a.txt")
  {
    AfterLastWithout("a.txt", '/');
    MissingFirstChar("a.txt", "zip");
    MissingFirstChar("a.txt", "rar");
    MissingFirstChar("a.txt", "7z");
  }

  /** A marker in a directory name does not count: "x.zip/notes" is rejected. */
  lemma MarkerInDirectoryIgnored()
    ensures !SupportedZipType("x.zip/notes")
  {
    assert "x.zip/" + "notes" == "x.zip/notes";
    NoMarkerRejected("x.zip/", "notes");
  }

  /** Whatever the directory holds, a last component without 'z', 'r' or '7' is rejected. */
  lemma NoMarkerRejected(dir: string, name: string)
    requires |dir| > 0 && dir[|dir| - 1] == '/'
    requires '/' !in name && 'z' !in name && 'r' !in name && '7' !in name
    ensures !SupportedZipType(dir + name)
  {
    DirectoryPrefixIrrelevant(dir, name);
    AfterLastWithout(name, '/');
    MissingFirstChar(name, "zip");
    MissingFirstChar(name, "rar");
    MissingFirstChar(name, "7z");
  }
}
