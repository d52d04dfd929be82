/**
 * The `/upload` and `/list_assets` handlers of main.py over an in-memory upload
 * folder: file name to contents. `secure_filename` is a parameter.
 */
module Uploads {
  import opened Wrappers
  import opened Strings
  import opened Seqs

  /** Path separators of `ntpath`, which `os.path` is on the Windows host the program targets. */
  const PathSeps: set<char> := {'/', '\\'}

  /** The last position in `s` holding a character of `cs`, or -1 (`str.rfind`). */
  function LastIndexIn(s: string, cs: set<char>): (k: int)
    ensures -1 <= k < |s|
    ensures k >= 0 ==> s[k] in cs
    ensures forall i :: k < i < |s| ==> s[i] !in cs
  {
    if s == [] then -1
    else if s[|s| - 1] in cs then |s| - 1
    else LastIndexIn(s[..|s| - 1], cs)
  }

  /**
   * The last path component of `p` holds a dot with some non-dot character
   * before it: position `i` is that character, `d` the dot.
   */
  predicate HasExtension(p: string) {
    exists i, d :: 0 <= i < d < |p| && p[i] != '.' && p[d] == '.' && forall j :: i <= j < |p| ==> p[j] !in PathSeps
  }

  /**
   * `os.path.splitext`: the extension is everything from the last dot, provided
   * that dot lies after the last separator and the base name before it is not
   * made of dots only; otherwise it is empty.
   */
  function SplitExt(p: string): (r: (string, string))
    ensures r.0 + r.1 == p
    ensures r.1 != "" <==> HasExtension(p)
    ensures r.1 != "" ==> r.1[0] == '.' && forall i :: 1 <= i < |r.1| ==> r.1[i] != '.' && r.1[i] !in PathSeps
    ensures r.1 != "" ==> exists i :: 0 <= i < |r.0| && r.0[i] != '.' && forall j :: i < j < |r.0| ==> r.0[j] !in PathSeps
  {
    var sep := LastIndexIn(p, PathSeps);
    var dot := LastIndexIn(p, {'.'});
    ExtensionFound(p);
    if dot > sep && exists i :: sep + 1 <= i < dot && p[i] != '.' then (p[..dot], p[dot..])
    else (p, "")
  }

  /** A dot after a non-dot in the last component satisfies the test `SplitExt` makes. */
  lemma ExtensionFound(p: string)
    ensures var sep := LastIndexIn(p, PathSeps); var dot := LastIndexIn(p, {'.'});
      HasExtension(p) ==> dot > sep && exists i :: sep + 1 <= i < dot && p[i] != '.'
  {
  }

  /**
   * Splitting `dir + stem + "." + suffix` gives back `dir + stem` and the dotted
   * suffix, when `dir` is empty or ends in a separator, the stem has no
   * separator and is not dots only, and the suffix has neither dots nor separators.
   */
  lemma {:induction false} SplitExtRoundTrip(dir: string, stem: string, suffix: string)
    requires dir == "" || dir[|dir| - 1] in PathSeps
    requires forall i :: 0 <= i < |stem| ==> stem[i] !in PathSeps
    requires exists i :: 0 <= i < |stem| && stem[i] != '.'
    requires forall i :: 0 <= i < |suffix| ==> suffix[i] != '.' && suffix[i] !in PathSeps
    ensures SplitExt(dir + stem + "." + suffix) == (dir + stem, "." + suffix)
  {
    var p := dir + stem + "." + suffix;
    var n := |dir| + |stem|;
    var dot := LastIndexIn(p, {'.'});
    var sep := LastIndexIn(p, PathSeps);
    assert p[n] == '.';
    assert forall i :: n < i < |p| ==> p[i] == suffix[i - n - 1];
    assert dot == n;
    assert forall i :: |dir| <= i < n ==> p[i] == stem[i - |dir|];
    assert sep == |dir| - 1 by {
      if dir != "" { assert p[|dir| - 1] == dir[|dir| - 1]; }
    }
    var i :| 0 <= i < |stem| && stem[i] != '.';
    assert sep + 1 <= |dir| + i < dot && p[|dir| + i] != '.';
    assert p[..dot] == dir + stem;
    assert p[dot..] == "." + suffix;
  }

  /**
   * The custom-name rule: the uploaded file's lower-cased extension is appended
   * unless the lower-cased custom name already ends with it.
   */
  function CustomName(custom: string, filename: string): (r: string)
    ensures EndsWith(Lower(r), Lower(SplitExt(filename).1))
    ensures r == custom || r == custom + Lower(SplitExt(filename).1)
    ensures EndsWith(Lower(custom), Lower(SplitExt(filename).1)) <==> r == custom
  {
    var ext := Lower(SplitExt(filename).1);
    if EndsWith(Lower(custom), ext) then custom
    else
      LowerConcat(custom, ext);
      LowerIdempotent(SplitExt(filename).1);
      custom + ext
  }

  /** Applying the rule to its own result changes nothing. */
  lemma CustomNameIdempotent(custom: string, filename: string)
    ensures CustomName(CustomName(custom, filename), filename) == CustomName(custom, filename)
  {
  }

  /** The `file` part of the upload form: the client's file name and the bytes. */
  datatype FilePart = FilePart(filename: string, content: Bytes)

  datatype UploadRequest = UploadRequest(file: Option<FilePart>, customName: Option<string>)

  /** The status, the stored name (empty when none was chosen) and the folder afterwards. */
  datatype UploadReply = UploadReply(status: int, name: string, folder: map<string, Bytes>)

  /**
   * The name the file is stored under, before the existence check: the
   * sanitized custom name, carrying the file's extension, when a non-empty one
   * is given, and the sanitized client file name otherwise.
   */
  function StoredName(part: FilePart, customName: Option<string>, sanitize: string -> string): (r: string)
    ensures customName.None? || customName.value == "" ==> r == sanitize(part.filename)
    ensures customName.Some? && customName.value != "" ==>
      var ext := Lower(SplitExt(part.filename).1);
      exists n :: && r == sanitize(n)
                  && (n == customName.value || n == customName.value + ext)
                  && (n == customName.value <==> EndsWith(Lower(customName.value), ext))
                  && EndsWith(Lower(n), ext)
  {
    if customName.Some? && customName.value != "" then sanitize(CustomName(customName.value, part.filename))
    else sanitize(part.filename)
  }

  /**
   * `os.path.exists(os.path.join(folder, name))` on a case-insensitive file
   * system: an empty name denotes the folder itself, and any other name exists
   * when a stored name differs from it in case only.
   */
  predicate Exists(folder: map<string, Bytes>, name: string) {
    name == "" || exists k :: k in folder && Lower(k) == Lower(name)
  }

  /** The `/upload` handler once the edit cookie has been accepted. */
  function Upload(req: UploadRequest, folder: map<string, Bytes>, sanitize: string -> string): (r: UploadReply)
    ensures r.status in {200, 400, 409}
    ensures r.status == 400 <==> req.file.None? || req.file.value.filename == ""
    ensures r.status != 200 ==> r.folder == folder
    ensures r.status == 409 ==> Exists(folder, r.name)
    ensures r.status == 200 ==>
      && r.name != "" && r.name !in folder
      && (forall k :: k in folder ==> Lower(k) != Lower(r.name))
      && r.folder == folder[r.name := req.file.value.content]
    ensures r.status != 400 ==> r.name == StoredName(req.file.value, req.customName, sanitize)
  {
    if req.file.None? || req.file.value.filename == "" then UploadReply(400, "", folder)
    else
      var part := req.file.value;
      var name := StoredName(part, req.customName, sanitize);
      if Exists(folder, name) then UploadReply(409, name, folder)
      else UploadReply(200, name, folder[name := part.content])
  }

  /** An upload never replaces a file that is already in the folder. */
  lemma UploadNeverOverwrites(req: UploadRequest, folder: map<string, Bytes>, sanitize: string -> string, name: string)
    requires name in folder
    ensures var r := Upload(req, folder, sanitize);
      name in r.folder && r.folder[name] == folder[name]
  {
  }

  const ImageExtensions := [".png", ".jpg", ".jpeg", ".gif", ".svg", ".webp"]

  /** A name the asset listing shows: its lower-cased form ends with an image extension. */
  predicate IsImage(name: string) {
    exists i :: 0 <= i < |ImageExtensions| && EndsWith(Lower(name), ImageExtensions[i])
  }

  /** The test ignores case. */
  lemma IsImageIgnoresCase(name: string)
    ensures IsImage(name) <==> IsImage(Lower(name))
  {
    LowerIdempotent(name);
  }

  /** The `/list_assets` handler: the folder listing (None when it cannot be read) filtered to images. */
  function ListAssets(listing: Option<seq<string>>): (r: (int, seq<string>))
    ensures listing.None? <==> r.0 == 500
    ensures listing.Some? ==> r.0 == 200 && forall n :: n in r.1 <==> n in listing.value && IsImage(n)
    ensures listing.Some? ==> |r.1| <= |listing.value|
  {
    match listing
    case None => (500, [])
    case Some(names) => (200, Filter(names, IsImage))
  }

  /** The images are listed in the order of the directory listing. */
  lemma ListAssetsKeepsOrder(a: seq<string>, b: seq<string>)
    ensures ListAssets(Some(a + b)).1 == ListAssets(Some(a)).1 + ListAssets(Some(b)).1
  {
    FilterConcat(a, b, IsImage);
  }
}
