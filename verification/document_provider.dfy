/** `OctoPrintDocumentProvider.kt`: the Storage Access Framework provider
    exposing the OctoPrint home directory. A document id is the file's
    absolute path. Modelled here: the conflict-free naming of
    `createDocument`, `isChildDocument`, `getMimeType`, the breadth-first
    `querySearchDocuments`, and the id/file mapping.

    The file system is a parameter: a set of existing paths where only
    existence matters, a tree of files for the search, and the platform's
    extension-to-MIME table as a function. */
module DocumentProvider {
  import opened Wrappers
  import opened Text

  const HomePath := "/data/data/com.octo4a/files/home"
  /** `DocumentsContract.Document.MIME_TYPE_DIR`. */
  const DirMimeType := "vnd.android.document/directory"
  const OctetStream := "application/octet-stream"
  const MaxSearchResults := 50

  /* ---------- document ids ---------- */

  /** `getDocIdForFile`: the absolute path. */
  function DocIdForFile(absolutePath: string): string {
    absolutePath
  }

  /** `getFileForDocId`: the path, if a file exists there. */
  function FileForDocId(existing: set<string>, docId: string): (r: Result<string, string>)
    ensures r.Ok? <==> docId in existing
    ensures r.Ok? ==> r.value == docId
    ensures r.Err? ==> r.error == docId + " not found"
  {
    if docId in existing then Ok(docId) else Err(docId + " not found")
  }

  /** The two mappings are inverse on existing files. */
  lemma DocIdRoundTrip(existing: set<string>, path: string)
    requires path in existing
    ensures FileForDocId(existing, DocIdForFile(path)) == Ok(path)
  {
  }

  /* ---------- createDocument ---------- */

  /** The `n`-th name tried: the display name itself, then "name (2)",
      "name (3)", and so on. */
  function Candidate(parent: string, name: string, n: nat): string
    requires n >= 1
  {
    if n == 1 then parent + "/" + name
    else parent + "/" + name + " (" + NatToString(n) + ")"
  }

  /** Different attempts never produce the same path. */
  lemma CandidateInjective(parent: string, name: string, n: nat, m: nat)
    requires n >= 1 && m >= 1
    requires Candidate(parent, name, n) == Candidate(parent, name, m)
    ensures n == m
  {
    var base := parent + "/" + name;
    var p := base + " (";
    if n >= 2 && m >= 2 {
      var a := NatToString(n);
      var b := NatToString(m);
      assert p + a + ")" == p + b + ")";
      assert |a| == |b|;
      assert (p + a + ")")[|p|..|p| + |a|] == a;
      assert (p + b + ")")[|p|..|p| + |b|] == b;
      NatToStringInjective(n, m);
    }
  }

  /** The candidates tried before the `n`th one. */
  function TriedBefore(parent: string, name: string, n: nat): (r: set<string>)
    ensures forall k: nat :: 1 <= k < n ==> Candidate(parent, name, k) in r
    decreases n
  {
    if n <= 1 then {} else TriedBefore(parent, name, n - 1) + {Candidate(parent, name, n - 1)}
  }

  /** A candidate beyond the ones tried so far has not been tried. */
  lemma {:induction false} NextCandidateUntried(parent: string, name: string, n: nat, m: nat)
    requires 1 <= m <= n
    ensures Candidate(parent, name, n) !in TriedBefore(parent, name, m)
    decreases m
  {
    if m > 1 {
      NextCandidateUntried(parent, name, n, m - 1);
      if Candidate(parent, name, n) == Candidate(parent, name, m - 1) {
        CandidateInjective(parent, name, m - 1, n);
      }
    }
  }

  /** `createDocument`, given the existing paths and how creating the
      chosen path goes: `Some(b)` is what `mkdir`/`createNewFile` returned,
      `None` an IOException. Returns the document id or the
      FileNotFoundException message, the path chosen, and whether a
      directory (rather than a file) was created. */
  method CreateDocument(existing: set<string>, parent: string, mimeType: string, displayName: string,
                        created: Option<bool>)
    returns (r: Result<string, string>, path: string, asDirectory: bool)
    ensures path !in existing
    ensures exists n: nat ::
      && n >= 1 && path == Candidate(parent, displayName, n)
      && forall k: nat :: 1 <= k < n ==> Candidate(parent, displayName, k) in existing
    ensures asDirectory <==> mimeType == DirMimeType
    ensures r.Ok? <==> created == Some(true)
    ensures r.Ok? ==> r.value == path
    ensures r.Err? ==> r.error == "Failed to create document with id " + path
  {
    var n;
    path, n := FreeCandidate(existing, parent, displayName);
    asDirectory := mimeType == DirMimeType;
    if created == Some(true) {
      r := Ok(path);
    } else {
      r := Err("Failed to create document with id " + path);
    }
  }

  /** The `while (file.exists())` loop: the first candidate, counting from
      the plain name, that is not an existing path. */
  method FreeCandidate(existing: set<string>, parent: string, displayName: string)
    returns (path: string, n: nat)
    ensures path !in existing
    ensures n >= 1 && path == Candidate(parent, displayName, n)
    ensures forall k: nat :: 1 <= k < n ==> Candidate(parent, displayName, k) in existing
  {
    n := 1;
    path := Candidate(parent, displayName, n);
    while path in existing
      invariant n >= 1 && path == Candidate(parent, displayName, n)
      invariant TriedBefore(parent, displayName, n) <= existing
      decreases |existing - TriedBefore(parent, displayName, n)|
    {
      NextCandidateUntried(parent, displayName, n, n);
      TryOneMore(existing, TriedBefore(parent, displayName, n), path);
      n := n + 1;
      path := Candidate(parent, displayName, n);
    }
  }

  /** Marking one more existing path as tried shrinks what is left. */
  lemma TryOneMore(existing: set<string>, tried: set<string>, path: string)
    requires path in existing && path !in tried
    ensures |existing - (tried + {path})| < |existing - tried|
  {
    assert existing - tried == (existing - (tried + {path})) + {path};
  }

  /* ---------- isChildDocument ---------- */

  /** `isChildDocument`: a plain prefix test on the ids. */
  predicate IsChildDocument(parentDocumentId: string, documentId: string) {
    StartsWith(documentId, parentDocumentId)
  }

  /** The test covers the whole subtree, but also a sibling whose name
      extends the parent's. */
  lemma IsChildDocumentIsPrefix(parent: string, rest: string)
    ensures IsChildDocument(parent, parent + "/" + rest)
    ensures IsChildDocument(parent, parent + rest)
    ensures IsChildDocument("/a/b", "/a/bc")
  {
    assert (parent + "/" + rest)[..|parent|] == parent;
    assert (parent + rest)[..|parent|] == parent;
    assert "/a/bc"[..3] == "/a/b"[..3];
  }

  /* ---------- getMimeType ---------- */

  /** `getMimeType`: directories get the directory type; a file is looked
      up by the lower-cased text after its last '.', falling back to
      "application/octet-stream". */
  function GetMimeType(isDirectory: bool, name: string, lookup: string -> Option<string>): (r: string)
    ensures isDirectory ==> r == DirMimeType
    ensures !isDirectory && '.' !in name ==> r == OctetStream
    ensures !isDirectory && '.' in name ==>
      exists i ::
        && 0 <= i < |name| && name[i] == '.' && '.' !in name[i + 1..]
        && r == lookup(ToLowerAscii(name[i + 1..])).GetOr(OctetStream)
  {
    if isDirectory then DirMimeType
    else match LastIndexOf(name, '.')
      case None => OctetStream
      case Some(i) =>
        var ext := name[i + 1..];
        assert forall j :: 0 <= j < |ext| ==> ext[j] == name[i + 1 + j];
        match lookup(ToLowerAscii(name[i + 1..]))
        case Some(mime) => mime
        case None => OctetStream
  }

  /** The extension is what follows the last dot, whatever the name holds
      before it. */
  lemma MimeOfExtension(base: string, ext: string, lookup: string -> Option<string>)
    requires '.' !in ext
    ensures GetMimeType(false, base + "." + ext, lookup) == lookup(ToLowerAscii(ext)).GetOr(OctetStream)
  {
    var name := base + "." + ext;
    assert name[|base|] == '.';
    var i :| 0 <= i < |name| && name[i] == '.' && '.' !in name[i + 1..]
             && GetMimeType(false, name, lookup) == lookup(ToLowerAscii(name[i + 1..])).GetOr(OctetStream);
    assert i == |base|;
    assert name[i + 1..] == ext;
  }

  /* ---------- querySearchDocuments ---------- */

  /** A file as the search sees it: its canonical path (`None` when
      canonicalisation throws) and, for a directory, whether `listFiles`
      returns an array (it returns null for a directory that cannot be
      read) and the files in it. */
  datatype FileNode = FileNode(
    path: string,
    name: string,
    isDirectory: bool,
    canonicalPath: Option<string>,
    listable: bool,
    children: seq<FileNode>)

  /** Spreading the null `listFiles` of an unreadable directory into the
      queue throws. */
  const SearchNullError := "NullPointerException"

  /** Only files inside the home directory are expanded or matched; a
      canonicalisation error counts as inside. */
  predicate InsideHome(f: FileNode) {
    f.canonicalPath.None? || StartsWith(f.canonicalPath.value, HomePath)
  }

  predicate NameMatches(f: FileNode, query: string) {
    Contains(ToLowerAscii(f.name), query)
  }

  /** The reference definition: `p` is the path of a matching file reached
      from `n` through directories inside home. */
  predicate Found(n: FileNode, query: string, p: string)
    decreases n
  {
    && InsideHome(n)
    && if n.isDirectory then n.listable && exists i :: 0 <= i < |n.children| && Found(n.children[i], query, p)
       else NameMatches(n, query) && p == n.path
  }

  predicate QueueFound(queue: seq<FileNode>, query: string, p: string) {
    exists j :: 0 <= j < |queue| && Found(queue[j], query, p)
  }

  /** An unreadable directory inside home is reached from `n` through
      readable directories inside home. */
  predicate Blocked(n: FileNode)
    decreases n
  {
    && InsideHome(n) && n.isDirectory
    && (!n.listable || exists i :: 0 <= i < |n.children| && Blocked(n.children[i]))
  }

  predicate QueueBlocked(queue: seq<FileNode>) {
    exists j :: 0 <= j < |queue| && Blocked(queue[j])
  }

  function Size(n: FileNode): nat
    decreases n, 1
  {
    1 + ChildrenSize(n, 0)
  }

  function ChildrenSize(parent: FileNode, i: nat): nat
    requires i <= |parent.children|
    decreases parent, 0, |parent.children| - i
  {
    if i == |parent.children| then 0 else Size(parent.children[i]) + ChildrenSize(parent, i + 1)
  }

  function QueueSize(queue: seq<FileNode>): nat {
    if |queue| == 0 then 0 else Size(queue[0]) + QueueSize(queue[1..])
  }

  lemma {:induction false} QueueSizeAppend(a: seq<FileNode>, b: seq<FileNode>)
    ensures QueueSize(a + b) == QueueSize(a) + QueueSize(b)
    decreases |a|
  {
    if |a| == 0 {
      assert a + b == b;
    } else {
      assert (a + b)[1..] == a[1..] + b;
      QueueSizeAppend(a[1..], b);
    }
  }

  lemma {:induction false} ChildrenSizeIsQueueSize(parent: FileNode, i: nat)
    requires i <= |parent.children|
    ensures ChildrenSize(parent, i) == QueueSize(parent.children[i..])
    decreases |parent.children| - i
  {
    if i < |parent.children| {
      ChildrenSizeIsQueueSize(parent, i + 1);
      assert parent.children[i..][1..] == parent.children[i + 1..];
    }
  }

  /** The search loop: `found` holds the paths already added. The loop
      stops when the queue is empty or 50 rows exist; an unreadable
      directory taken from the queue before that ends the search with an
      exception. */
  function SearchFrom(queue: seq<FileNode>, query: string, found: seq<string>): (r: Result<seq<string>, string>)
    requires |found| <= MaxSearchResults
    ensures r.Ok? ==> |r.value| <= MaxSearchResults
    ensures r.Ok? ==> |r.value| >= |found| && r.value[..|found|] == found
    ensures r.Ok? ==> forall p :: p in r.value ==> p in found || QueueFound(queue, query, p)
    ensures r.Ok? && |r.value| < MaxSearchResults ==> forall p :: QueueFound(queue, query, p) ==> p in r.value
    ensures r.Err? ==> r.error == SearchNullError && QueueBlocked(queue)
    ensures !QueueBlocked(queue) ==> r.Ok?
    decreases QueueSize(queue)
  {
    if |queue| == 0 || |found| == MaxSearchResults then Ok(found)
    else
      var f := queue[0];
      var rest := queue[1..];
      QueueFoundCons(queue, query);
      QueueBlockedCons(queue);
      if !InsideHome(f) then
        SearchFrom(rest, query, found)
      else if f.isDirectory && !f.listable then
        Err(SearchNullError)
      else if f.isDirectory then
        var next := rest + f.children;
        QueueSizeAppend(rest, f.children);
        ChildrenSizeIsQueueSize(f, 0);
        assert f.children[0..] == f.children;
        ExpandKeepsFound(rest, f, query);
        ExpandKeepsBlocked(rest, f);
        SearchFrom(next, query, found)
      else if NameMatches(f, query) then
        var r := SearchFrom(rest, query, found + [f.path]);
        if r.Err? then r
        else
          assert r.value[..|found|] == (found + [f.path])[..|found|];
          assert f.path in r.value by {
            assert r.value[|found|] == (found + [f.path])[|found|];
          }
          r
      else
        SearchFrom(rest, query, found)
  }

  lemma QueueFoundCons(queue: seq<FileNode>, query: string)
    requires |queue| > 0
    ensures forall p :: QueueFound(queue, query, p) <==> Found(queue[0], query, p) || QueueFound(queue[1..], query, p)
  {
    forall p ensures QueueFound(queue, query, p) <==> Found(queue[0], query, p) || QueueFound(queue[1..], query, p) {
      if QueueFound(queue, query, p) && !Found(queue[0], query, p) {
        var j :| 0 <= j < |queue| && Found(queue[j], query, p);
        assert queue[1..][j - 1] == queue[j];
      }
      if QueueFound(queue[1..], query, p) {
        var j :| 0 <= j < |queue[1..]| && Found(queue[1..][j], query, p);
        assert queue[j + 1] == queue[1..][j];
      }
    }
  }

  lemma QueueBlockedCons(queue: seq<FileNode>)
    requires |queue| > 0
    ensures QueueBlocked(queue) <==> Blocked(queue[0]) || QueueBlocked(queue[1..])
  {
    if QueueBlocked(queue) && !Blocked(queue[0]) {
      var j :| 0 <= j < |queue| && Blocked(queue[j]);
      assert queue[1..][j - 1] == queue[j];
    }
    if QueueBlocked(queue[1..]) {
      var j :| 0 <= j < |queue[1..]| && Blocked(queue[1..][j]);
      assert queue[j + 1] == queue[1..][j];
    }
  }

  /** Replacing a readable directory inside home by its children keeps
      what is blocked. */
  lemma ExpandKeepsBlocked(rest: seq<FileNode>, f: FileNode)
    requires f.isDirectory && f.listable && InsideHome(f)
    ensures QueueBlocked(rest + f.children) <==> Blocked(f) || QueueBlocked(rest)
  {
    var next := rest + f.children;
    if Blocked(f) {
      var i :| 0 <= i < |f.children| && Blocked(f.children[i]);
      assert next[|rest| + i] == f.children[i];
    }
    if QueueBlocked(rest) {
      var j :| 0 <= j < |rest| && Blocked(rest[j]);
      assert next[j] == rest[j];
    }
    if QueueBlocked(next) {
      var j :| 0 <= j < |next| && Blocked(next[j]);
      if j >= |rest| {
        assert next[j] == f.children[j - |rest|];
      } else {
        assert next[j] == rest[j];
      }
    }
  }

  /** Replacing a readable directory inside home by its children keeps
      what is found. */
  lemma ExpandKeepsFound(rest: seq<FileNode>, f: FileNode, query: string)
    requires f.isDirectory && f.listable && InsideHome(f)
    ensures forall p :: QueueFound(rest + f.children, query, p) <==> Found(f, query, p) || QueueFound(rest, query, p)
  {
    var next := rest + f.children;
    forall p ensures QueueFound(next, query, p) <==> Found(f, query, p) || QueueFound(rest, query, p) {
      if Found(f, query, p) {
        var i :| 0 <= i < |f.children| && Found(f.children[i], query, p);
        assert next[|rest| + i] == f.children[i];
      }
      if QueueFound(rest, query, p) {
        var j :| 0 <= j < |rest| && Found(rest[j], query, p);
        assert next[j] == rest[j];
      }
      if QueueFound(next, query, p) {
        var j :| 0 <= j < |next| && Found(next[j], query, p);
        if j >= |rest| {
          assert next[j] == f.children[j - |rest|];
        } else {
          assert next[j] == rest[j];
        }
      }
    }
  }

  /** `querySearchDocuments` from the root document `rootId`: at most 50
      paths, each of a matching file reached through directories inside
      home, and, when fewer than 50 are returned, all of them. An
      unreadable directory inside home met before 50 rows exist makes the
      search throw. */
  function QuerySearchDocuments(existing: set<string>, root: FileNode, query: string): (r: Result<seq<string>, string>)
    ensures root.path !in existing ==> r == Err(root.path + " not found")
    ensures root.path in existing && !Blocked(root) ==> r.Ok?
    ensures r.Err? && root.path in existing ==> r.error == SearchNullError && Blocked(root)
    ensures r.Ok? ==> |r.value| <= MaxSearchResults
    ensures r.Ok? ==> forall p :: p in r.value ==> Found(root, query, p)
    ensures r.Ok? && |r.value| < MaxSearchResults ==> forall p :: Found(root, query, p) ==> p in r.value
  {
    match FileForDocId(existing, root.path)
    case Err(e) => Err(e)
    case Ok(_) =>
      var r := SearchFrom([root], query, []);
      assert forall p :: QueueFound([root], query, p) <==> Found(root, query, p) by {
        forall p ensures QueueFound([root], query, p) <==> Found(root, query, p) {
          if Found(root, query, p) {
            assert [root][0] == root;
          }
        }
      }
      assert QueueBlocked([root]) <==> Blocked(root) by {
        assert [root][0] == root;
      }
      r
  }

  /** `m` is `n` itself or lies below it, reached through directories
      inside home. */
  predicate Reachable(n: FileNode, m: FileNode)
    decreases n
  {
    || n == m
    || (n.isDirectory && InsideHome(n) && exists i :: 0 <= i < |n.children| && Reachable(n.children[i], m))
  }

  /** Every returned path is that of a file in the searched tree, reached
      through directories inside home, inside home itself, and whose
      lower-cased name contains the query. */
  lemma {:induction false} FoundIsMatchingFile(n: FileNode, query: string, p: string)
    requires Found(n, query, p)
    ensures exists m: FileNode :: Reachable(n, m) && !m.isDirectory && m.path == p && NameMatches(m, query) && InsideHome(m)
    decreases n
  {
    if n.isDirectory {
      var i :| 0 <= i < |n.children| && Found(n.children[i], query, p);
      FoundIsMatchingFile(n.children[i], query, p);
      var m :| Reachable(n.children[i], m) && !m.isDirectory && m.path == p && NameMatches(m, query) && InsideHome(m);
      assert Reachable(n, m);
    } else {
      assert Reachable(n, n);
    }
  }
}
