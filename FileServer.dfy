/**
 * The `/file` handler: a guard against traversal names, a character
 * filter, resolution against the uploads directory, a containment check
 * on the resolved path's text, and a read from a text-file store.
 *
 * Paths are absolute and normalised, kept as their list of segments
 * (`[]` is the root); `Render` gives the text that the containment check
 * compares.  Resolution is modelled only for names without a separator,
 * which is all the filter can produce.
 */
module FileServer {
  import opened Wrappers

  type Path = seq<string>

  datatype Response =
    | Ok(body: string)
    | BadRequest(message: string)
    | NotFound(message: string)
  {
    function Status(): nat {
      match this
      case Ok(_) => 200
      case BadRequest(_) => 400
      case NotFound(_) => 404
    }
  }

  // ---------------------------------------------------------------------
  // Substring search (`String.prototype.includes`)
  // ---------------------------------------------------------------------

  /** `sub` occurs in `s` starting at position `i`. */
  predicate OccursAt(s: string, sub: string, i: nat) {
    i + |sub| <= |s| && s[i..i + |sub|] == sub
  }

  /** `s.includes(sub)`: true exactly when `sub` occurs somewhere in `s`. */
  predicate Contains(s: string, sub: string)
    ensures Contains(s, sub) <==> exists i: nat :: OccursAt(s, sub, i)
    decreases |s|
  {
    if |s| < |sub| then
      assert forall i: nat :: !OccursAt(s, sub, i);
      false
    else if s[..|sub|] == sub then
      assert OccursAt(s, sub, 0);
      true
    else
      OccursPastFirst(s, sub);
      Contains(s[1..], sub)
  }

  /** When `sub` does not start `s`, it occurs in `s` exactly when it occurs in `s[1..]`. */
  lemma OccursPastFirst(s: string, sub: string)
    requires |sub| <= |s| && s[..|sub|] != sub
    ensures (exists i: nat :: OccursAt(s, sub, i)) <==> exists i: nat :: OccursAt(s[1..], sub, i)
  {
    if i: nat :| OccursAt(s[1..], sub, i) {
      assert s[1..][i..i + |sub|] == s[i + 1..i + 1 + |sub|];
      assert OccursAt(s, sub, i + 1);
    }
    if i: nat :| OccursAt(s, sub, i) {
      assert i != 0;
      assert s[1..][i - 1..i - 1 + |sub|] == s[i..i + |sub|];
      assert OccursAt(s[1..], sub, i - 1);
    }
  }

  /** For a one-character needle, `Contains` is sequence membership. */
  lemma ContainsChar(s: string, c: char)
    ensures Contains(s, [c]) <==> c in s
  {
    if c in s {
      var i :| 0 <= i < |s| && s[i] == c;
      assert OccursAt(s, [c], i);
    }
    if i: nat :| OccursAt(s, [c], i) {
      assert s[i] == s[i..i + 1][0] == c;
    }
  }

  // ---------------------------------------------------------------------
  // The guard and the character filter
  // ---------------------------------------------------------------------

  predicate HasTraversal(name: string) {
    Contains(name, "..") || Contains(name, "/") || Contains(name, "\\")
  }

  /** The first check: the name is missing, empty (falsy), or contains `..`, `/` or `\`. */
  predicate Rejects(name: Option<string>)
    ensures Rejects(name) <==>
              name.None? || name.value == "" || '/' in name.value || '\\' in name.value ||
              exists i: nat :: OccursAt(name.value, "..", i)
  {
    match name
    case None => true
    case Some(s) =>
      ContainsChar(s, '/');
      ContainsChar(s, '\\');
      s == "" || HasTraversal(s)
  }

  /** The characters the filter keeps: `[A-Za-z0-9.\-_]`. */
  predicate IsAllowed(c: char) {
    ('a' <= c <= 'z') || ('A' <= c <= 'Z') || ('0' <= c <= '9') || c == '.' || c == '-' || c == '_'
  }

  predicate AllAllowed(s: string) {
    forall i :: 0 <= i < |s| ==> IsAllowed(s[i])
  }

  /** Deletes every character outside `[A-Za-z0-9.\-_]`. */
  function Sanitise(name: string): (r: string)
    ensures |r| <= |name|
    ensures AllAllowed(r)
  {
    if name == [] then []
    else if IsAllowed(name[0]) then [name[0]] + Sanitise(name[1..])
    else Sanitise(name[1..])
  }

  /** `r` can be obtained from `s` by deleting characters. */
  predicate IsSubsequence(r: string, s: string)
    decreases |s|
  {
    if r == [] then true
    else if s == [] then false
    else if r[0] == s[0] then IsSubsequence(r[1..], s[1..])
    else IsSubsequence(r, s[1..])
  }

  /** The filter only deletes: its output is a subsequence of its input. */
  lemma {:induction false} SanitiseIsSubsequence(name: string)
    ensures IsSubsequence(Sanitise(name), name)
    decreases |name|
  {
    if name != [] {
      SanitiseIsSubsequence(name[1..]);
      var rest := Sanitise(name[1..]);
      if IsAllowed(name[0]) {
        assert ([name[0]] + rest)[1..] == rest;
      }
    }
  }

  /** The filter keeps every occurrence of an allowed character and no occurrence of any other. */
  lemma {:induction false} SanitiseKeepsAllowed(name: string, c: char)
    ensures multiset(Sanitise(name))[c] == if IsAllowed(c) then multiset(name)[c] else 0
    decreases |name|
  {
    if name != [] {
      SanitiseKeepsAllowed(name[1..], c);
      assert name == [name[0]] + name[1..];
      assert multiset(name) == multiset{name[0]} + multiset(name[1..]);
      if IsAllowed(name[0]) {
        assert multiset(Sanitise(name)) == multiset{name[0]} + multiset(Sanitise(name[1..]));
      }
    }
  }

  /** The filter deletes nothing from a name made only of allowed characters, and only from such names. */
  lemma {:induction false} SanitiseFixedPoints(name: string)
    ensures Sanitise(name) == name <==> AllAllowed(name)
    decreases |name|
  {
    if name != [] && AllAllowed(name) {
      SanitiseFixedPoints(name[1..]);
      assert AllAllowed(name[1..]) by {
        forall i | 0 <= i < |name[1..]| ensures IsAllowed(name[1..][i]) {
          assert name[1..][i] == name[i + 1];
        }
      }
      assert [name[0]] + name[1..] == name;
    }
  }

  /** Filtering twice is filtering once. */
  lemma SanitiseIdempotent(name: string)
    ensures Sanitise(Sanitise(name)) == Sanitise(name)
  {
    SanitiseFixedPoints(Sanitise(name));
  }

  // ---------------------------------------------------------------------
  // Paths, resolution and the containment check
  // ---------------------------------------------------------------------

  /** The text of an absolute path: `/` for the root, otherwise `/a/b/c`. */
  function Render(p: Path): string {
    if p == [] then "/" else Join(p)
  }

  function Join(p: Path): string {
    if p == [] then "" else Join(p[..|p| - 1]) + "/" + p[|p| - 1]
  }

  /** `String.prototype.startsWith`: `s` begins with `prefix`. */
  function StartsWith(s: string, prefix: string): (b: bool)
    ensures b <==> exists t: string :: s == prefix + t
  {
    if |prefix| <= |s| && s[..|prefix|] == prefix then
      assert s == prefix + s[|prefix|..];
      true
    else
      false
  }

  /** `path.resolve(__dirname, 'uploads')`: the `uploads` child of `dir`. */
  function Uploads(dir: Path): (u: Path)
    ensures |u| == |dir| + 1 && u[..|dir|] == dir && u[|dir|] == "uploads"
  {
    dir + ["uploads"]
  }

  predicate SeparatorFree(name: string) {
    '/' !in name && '\\' !in name
  }

  /**
   * `path.resolve(base, name)` for a name with no separator: the empty
   * name and `.` stay at `base`, `..` climbs to its parent, and any other
   * name is a child of `base`.
   */
  function Resolve(base: Path, name: string): (p: Path)
    requires SeparatorFree(name)
    ensures name == "" || name == "." ==> p == base
    ensures name == ".." && base != [] ==> p + [base[|base| - 1]] == base
    ensures name == ".." && base == [] ==> p == []
    ensures name !in {"", ".", ".."} ==> |p| == |base| + 1 && p[..|base|] == base && p[|base|] == name
  {
    if name == "" || name == "." then base
    else if name == ".." then (if base == [] then [] else base[..|base| - 1])
    else base + [name]
  }

  /** The path the handler reads, or the 400 message it sends instead. */
  datatype Located = Target(path: Path) | Invalid(message: string)

  /** Everything the handler does before the read. */
  function Locate(name: Option<string>, dir: Path): (r: Located)
    ensures Rejects(name) ==> r == Invalid("Invalid filename")
    ensures r.Invalid? ==> r.message == "Invalid filename" || r.message == "Invalid file path"
    ensures r.Target? ==> StartsWith(Render(r.path), Render(Uploads(dir)))
  {
    if Rejects(name) then Invalid("Invalid filename")
    else
      var sanitised := Sanitise(name.value);
      var uploads := Uploads(dir);
      assert SeparatorFree(sanitised) by {
        assert !IsAllowed('/') && !IsAllowed('\\');
      }
      var filepath := Resolve(uploads, sanitised);
      if !StartsWith(Render(filepath), Render(uploads)) then Invalid("Invalid file path")
      else Target(filepath)
  }

  /**
   * The whole handler. `files` maps the path of every readable text file
   * to its contents; any other path (a missing file, a directory) makes
   * the read fail.
   */
  function ServeFile(name: Option<string>, dir: Path, files: map<Path, string>): (r: Response)
    ensures r.BadRequest? <==> Locate(name, dir).Invalid?
    ensures r.Ok? ==> Locate(name, dir).Target? && Locate(name, dir).path in files &&
                      r.body == files[Locate(name, dir).path]
    ensures r.NotFound? ==> r.message == "File not found" &&
                            Locate(name, dir).Target? && Locate(name, dir).path !in files
  {
    match Locate(name, dir)
    case Invalid(message) => BadRequest(message)
    case Target(p) => if p in files then Ok(files[p]) else NotFound("File not found")
  }

  // ---------------------------------------------------------------------
  // Properties of paths
  // ---------------------------------------------------------------------

  lemma RenderChild(p: Path, x: string)
    requires p != []
    ensures Render(p + [x]) == Render(p) + "/" + x
  {
    assert (p + [x])[..|p|] == p;
  }

  /** A child's text is strictly longer than its parent's. */
  lemma RenderLonger(p: Path, x: string)
    requires x != ""
    ensures |Render(p)| < |Render(p + [x])|
  {
    if p == [] {
      assert Render([x]) == Join([]) + "/" + x;
    } else {
      RenderChild(p, x);
    }
  }

  /**
   * The containment check passes exactly when the filtered name is not
   * `..`: the base and its children start with the base's text, and its
   * parent's text is too short to.
   */
  lemma ContainmentCheck(dir: Path, sanitised: string)
    requires SeparatorFree(sanitised)
    ensures StartsWith(Render(Resolve(Uploads(dir), sanitised)), Render(Uploads(dir))) <==> sanitised != ".."
  {
    var uploads := Uploads(dir);
    if sanitised == ".." {
      assert Resolve(uploads, sanitised) == dir by { assert uploads[..|uploads| - 1] == dir; }
      RenderLonger(dir, "uploads");
    } else if sanitised != "" && sanitised != "." {
      RenderChild(uploads, sanitised);
    }
  }

  // ---------------------------------------------------------------------
  // Properties of the handler
  // ---------------------------------------------------------------------

  /** A missing, empty or traversal name gets 400 "Invalid filename" and nothing is read. */
  lemma RejectedNameNotRead(name: Option<string>, dir: Path, files: map<Path, string>, other: map<Path, string>)
    requires Rejects(name)
    ensures ServeFile(name, dir, files) == BadRequest("Invalid filename")
    ensures ServeFile(name, dir, files) == ServeFile(name, dir, other)
    ensures ServeFile(name, dir, files).Status() == 400
  {
  }

  /** A name with `/`, `\` or `..` anywhere in it is refused by the first check. */
  lemma TraversalRefused(name: string, dir: Path, files: map<Path, string>)
    requires '/' in name || '\\' in name || exists i: nat :: OccursAt(name, "..", i)
    ensures ServeFile(Some(name), dir, files) == BadRequest("Invalid filename")
  {
  }

  /** The names the traversal test script sends are all refused with 400. */
  lemma ScriptedTraversalNamesRefused(dir: Path, files: map<Path, string>)
    ensures ServeFile(Some("../../../etc/passwd"), dir, files).Status() == 400
    ensures ServeFile(Some("../../app.js"), dir, files).Status() == 400
    ensures ServeFile(Some("../secret.txt"), dir, files).Status() == 400
    ensures ServeFile(Some("valid.txt/../../etc/passwd"), dir, files).Status() == 400
  {
    TraversalRefused("../../../etc/passwd", dir, files);
    TraversalRefused("../../app.js", dir, files);
    TraversalRefused("../secret.txt", dir, files);
    TraversalRefused("valid.txt/../../etc/passwd", dir, files);
  }

  /** A path is located exactly when the first check passes and the filtered name is not `..`. */
  lemma LocateSucceeds(name: Option<string>, dir: Path)
    ensures Locate(name, dir).Target? <==> !Rejects(name) && Sanitise(name.value) != ".."
    ensures !Rejects(name) && Sanitise(name.value) == ".." ==> Locate(name, dir) == Invalid("Invalid file path")
  {
    if !Rejects(name) {
      var s := Sanitise(name.value);
      assert SeparatorFree(s) by { assert !IsAllowed('/') && !IsAllowed('\\'); }
      ContainmentCheck(dir, s);
    }
  }

  /**
   * Every path the handler reads is the uploads directory itself (the
   * filtered name is empty or `.`) or a direct child of it whose name is
   * the filtered name.
   */
  lemma AcceptedPathInsideUploads(name: Option<string>, dir: Path)
    requires Locate(name, dir).Target?
    ensures var p, uploads := Locate(name, dir).path, Uploads(dir);
            var s := Sanitise(name.value);
            (p == uploads && (s == "" || s == ".")) ||
            (|p| == |uploads| + 1 && p[..|uploads|] == uploads && p[|uploads|] == s &&
             s !in {"", ".", ".."} && AllAllowed(s))
  {
    LocateSucceeds(name, dir);
    var uploads, s := Uploads(dir), Sanitise(name.value);
    assert (uploads + [s])[..|uploads|] == uploads;
  }

  /** A name that becomes `..` only after filtering, such as `.%.`, passes the first check and fails the second. */
  lemma FilteredDotDotRefused(dir: Path, files: map<Path, string>)
    ensures !Rejects(Some(".%."))
    ensures ServeFile(Some(".%."), dir, files) == BadRequest("Invalid file path")
  {
    assert Sanitise(".%.") == "..";
    LocateSucceeds(Some(".%."), dir);
  }

  /** A valid name of an existing text file in the uploads directory yields that file's exact contents; a missing one yields 404. */
  lemma ServesFileInUploads(name: string, dir: Path, files: map<Path, string>)
    requires !Rejects(Some(name))
    requires Sanitise(name) !in {"", ".", ".."}
    ensures var p := Uploads(dir) + [Sanitise(name)];
            ServeFile(Some(name), dir, files) == if p in files then Ok(files[p]) else NotFound("File not found")
  {
    LocateSucceeds(Some(name), dir);
    AcceptedPathInsideUploads(Some(name), dir);
  }

  /** A name that filters down to nothing, or to `.`, reads the uploads directory itself, which is not a text file: 404. */
  lemma FilteredToDirectoryNotFound(name: string, dir: Path, files: map<Path, string>)
    requires !Rejects(Some(name))
    requires Sanitise(name) in {"", "."}
    requires Uploads(dir) !in files
    ensures ServeFile(Some(name), dir, files) == NotFound("File not found")
  {
    LocateSucceeds(Some(name), dir);
    AcceptedPathInsideUploads(Some(name), dir);
  }
}
