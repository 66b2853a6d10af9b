/** The pure parts of user/find.c: the name matcher, the defaulting of the
    command-line arguments, and the child paths a directory yields. The
    open/fstat/read/stat traversal and the printing are left to the caller. */
module Find {
  import opened Wrappers
  import opened CStrings

  /** `sizeof buf` in find(). */
  const BUF_SIZE: nat := 512

  /** `suffix` is the tail of `s`, character by character. */
  ghost predicate IsSuffix(suffix: string, s: string) {
    |suffix| <= |s| && forall j | 0 <= j < |suffix| :: s[|s| - |suffix| + j] == suffix[j]
  }

  /** match(filepath, filename) on the C strings' contents. The length check
      comes first, so "*" matches every path except the empty one; otherwise
      the name must be a plain character suffix of the whole path. */
  function Match(filepath: string, filename: string): (m: bool)
    ensures |filepath| < |filename| ==> !m
    ensures filename == "*" ==> (m <==> |filepath| >= 1)
    ensures filename != "*" ==> (m <==> IsSuffix(filename, filepath))
    ensures filepath == filename ==> m
  {
    if |filepath| < |filename| then false
    else if filename == "*" then true
    else filepath[|filepath| - |filename|..] == filename
  }

  datatype Search = Search(root: string, pattern: string)

  /** main's argument handling over `argv` (program name first): more than two
      arguments is a usage error (None); a missing pattern is "*" and a
      missing root is ".". */
  function Arguments(argv: seq<string>): (r: Option<Search>)
    requires |argv| >= 1
    ensures r.None? <==> |argv| > 3
    ensures r.Some? ==> r.value.root == (if |argv| >= 2 then argv[1] else ".")
    ensures r.Some? ==> r.value.pattern == (if |argv| == 3 then argv[2] else "*")
    ensures r.Some? && |argv| < 3 ==> forall p: string | |p| >= 1 :: Match(p, r.value.pattern)
  {
    if |argv| > 3 then None
    else if |argv| == 1 then Some(Search(".", "*"))
    else if |argv| == 2 then Some(Search(argv[1], "*"))
    else Some(Search(argv[1], argv[2]))
  }

  /** `struct dirent`: `name` is the raw DIRSIZ-character field. */
  datatype Dirent = Dirent(inum: nat, name: seq<char>)

  /** Entries find never descends into: free slots, "." and "..". */
  predicate Skipped(de: Dirent) {
    de.inum == 0 || CStr(de.name) == "." || CStr(de.name) == ".."
  }

  /** The path find builds for one entry: `path`, '/', the DIRSIZ name bytes
      and a NUL, read back as a C string. */
  function ChildPath(path: string, de: Dirent, dirsiz: nat): (r: Option<string>)
    requires NUL !in path && |de.name| == dirsiz
    ensures r.None? <==> Skipped(de)
    ensures r.Some? ==> r.value == path + "/" + CStr(de.name)
    ensures r.Some? ==> |r.value| <= |path| + 1 + dirsiz
  {
    if de.inum == 0 then None
    else if CStr(de.name) == "." || CStr(de.name) == ".." then None
    else
      CStrAppend(path + "/", de.name + [NUL]);
      CStrTerminated(de.name);
      assert path + "/" + de.name + [NUL] == (path + "/") + (de.name + [NUL]);
      Some(CStr(path + "/" + de.name + [NUL]))
  }

  /** The entries find descends into, in directory order: the read loop
      appends each entry it does not skip. */
  function Kept(entries: seq<Dirent>): (k: seq<Dirent>)
    ensures |k| <= |entries|
  {
    if |entries| == 0 then []
    else
      var rest := Kept(entries[..|entries| - 1]);
      if Skipped(entries[|entries| - 1]) then rest else rest + [entries[|entries| - 1]]
  }

  /** Kept holds exactly the entries that are not skipped. */
  lemma {:induction false} KeptMembers(entries: seq<Dirent>)
    ensures forall e | e in Kept(entries) :: e in entries && !Skipped(e)
    ensures forall e | e in entries && !Skipped(e) :: e in Kept(entries)
  {
    if |entries| > 0 {
      var init := entries[..|entries| - 1];
      KeptMembers(init);
      assert entries == init + [entries[|entries| - 1]];
    }
  }

  /** Paths listed one per kept entry, in order, name exactly the kept entries. */
  lemma PathsOfKept(path: string, entries: seq<Dirent>, r: seq<string>)
    requires |r| == |Kept(entries)|
    requires forall j | 0 <= j < |r| :: r[j] == path + "/" + CStr(Kept(entries)[j].name)
    ensures forall e | e in entries && !Skipped(e) :: path + "/" + CStr(e.name) in r
    ensures forall c | c in r :: exists e | e in entries :: !Skipped(e) && c == path + "/" + CStr(e.name)
  {
    var k := Kept(entries);
    KeptMembers(entries);
    forall e | e in entries && !Skipped(e) ensures path + "/" + CStr(e.name) in r {
      var j :| 0 <= j < |k| && k[j] == e;
      assert r[j] == path + "/" + CStr(e.name);
    }
    forall c | c in r ensures exists e | e in entries :: !Skipped(e) && c == path + "/" + CStr(e.name) {
      var j :| 0 <= j < |r| && r[j] == c;
      assert k[j] in k;
    }
  }

  /** The read loop of find()'s T_DIR case: one child path per kept entry, in
      directory order. */
  function Children(path: string, entries: seq<Dirent>, dirsiz: nat): (r: seq<string>)
    requires NUL !in path && forall e | e in entries :: |e.name| == dirsiz
    ensures |r| == |Kept(entries)|
    ensures forall j | 0 <= j < |r| :: r[j] == path + "/" + CStr(Kept(entries)[j].name)
    ensures forall c | c in r :: |c| <= |path| + 1 + dirsiz && path + "/" <= c
    ensures forall e | e in entries && !Skipped(e) :: path + "/" + CStr(e.name) in r
    ensures forall c | c in r :: exists e | e in entries :: !Skipped(e) && c == path + "/" + CStr(e.name)
  {
    var r := ChildrenInOrder(path, entries, dirsiz);
    PathsOfKept(path, entries, r);
    r
  }

  /** The recursion behind Children: the loop appends the path of each entry
      it does not skip. */
  function ChildrenInOrder(path: string, entries: seq<Dirent>, dirsiz: nat): (r: seq<string>)
    requires NUL !in path && forall e | e in entries :: |e.name| == dirsiz
    ensures |r| == |Kept(entries)|
    ensures forall j | 0 <= j < |r| :: r[j] == path + "/" + CStr(Kept(entries)[j].name)
    ensures forall c | c in r :: |c| <= |path| + 1 + dirsiz && path + "/" <= c
  {
    if |entries| == 0 then []
    else
      var init := entries[..|entries| - 1];
      var last := entries[|entries| - 1];
      assert forall e | e in init :: e in entries;
      assert last in entries;
      var rest := ChildrenInOrder(path, init, dirsiz);
      match ChildPath(path, last, dirsiz)
      case None => rest
      case Some(c) => rest + [c]
  }

  /** The T_DIR case of find(): a directory whose path leaves no room for
      '/', a DIRSIZ name and the NUL in `buf` is rejected ("path too long");
      otherwise every entry that is not skipped yields a child path, in
      directory order, and each of them fits in `buf` with its NUL. */
  function DirChildren(path: string, entries: seq<Dirent>, dirsiz: nat): (r: Option<seq<string>>)
    requires NUL !in path && forall e | e in entries :: |e.name| == dirsiz
    ensures r.None? <==> |path| + 1 + dirsiz + 1 > BUF_SIZE
    ensures r.Some? ==> forall c | c in r.value :: |c| + 1 <= BUF_SIZE
    ensures r.Some? ==> |r.value| == |Kept(entries)|
    ensures r.Some? ==> forall j | 0 <= j < |r.value| :: r.value[j] == path + "/" + CStr(Kept(entries)[j].name)
    ensures r.Some? ==> forall e | e in entries && !Skipped(e) :: path + "/" + CStr(e.name) in r.value
    ensures r.Some? ==> forall c | c in r.value :: exists e | e in entries :: !Skipped(e) && c == path + "/" + CStr(e.name)
  {
    if |path| + 1 + dirsiz + 1 > BUF_SIZE then None
    else Some(Children(path, entries, dirsiz))
  }
}
