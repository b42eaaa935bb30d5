/**
  MIME handling of the upload path: the file-name suffix, the suffix-to-MIME
  table, and the two-part pattern matcher behind both the allow-list and the
  listing filter (`type/subtype` exactly, or a `type/` wildcard ending in a star).
*/
module MimeTypes {
  import opened Ascii
  import opened Outcomes

  const OctetStream: string := "application/octet-stream"

  /** The last path component. */
  function BaseName(path: string): (name: string)
    ensures forall j :: 0 <= j < |name| ==> name[j] != '/'
    ensures |name| <= |path| && name == path[|path| - |name|..]
  {
    path[LastIndexOf(path, '/') + 1..]
  }

  /**
    The suffix of a file name: from the last '.' of the text after the last
    '/', provided that dot is neither that text's first nor its last
    character; otherwise empty.
  */
  function Suffix(filename: string): (ext: string)
    ensures ext == [] || (|ext| >= 2 && ext[0] == '.')
    ensures |ext| <= |filename| && ext == filename[|filename| - |ext|..]
    ensures forall j :: 0 < j < |ext| ==> ext[j] != '.' && ext[j] != '/'
    ensures var name := BaseName(filename);
      ext != [] <==> exists i :: 0 < i < |name| - 1 && name[i] == '.' && forall j :: i < j < |name| ==> name[j] != '.'
  {
    var name := BaseName(filename);
    var i := LastIndexOf(name, '.');
    if 0 < i < |name| - 1 then name[i..] else []
  }

  /** The extension-to-MIME table, for the extensions the engine's tests exercise. */
  function MimeForSuffix(ext: string): string {
    if ext == ".txt" then "text/plain"
    else if ext == ".png" then "image/png"
    else if ext == ".jpg" || ext == ".jpeg" then "image/jpeg"
    else OctetStream
  }

  /** MIME type of an upload, from its file name; the lookup ignores case. */
  function InferMime(filename: string): string {
    MimeForSuffix(Lower(Suffix(filename)))
  }

  /** The part of a MIME type before its first '/', if it has one. */
  function TypeOf(mime: string): Option<string> {
    var k := IndexOf(mime, '/');
    if k < 0 then None else Some(mime[..k])
  }

  /** A wildcard pattern: a type, a '/' and a star, with no other '/'. */
  predicate IsWildcard(p: string) {
    |p| >= 2 && p[|p| - 2..] == "/*" && IndexOf(p, '/') == |p| - 2
  }

  /** Case-insensitive match of a MIME type against one pattern. */
  predicate MimeMatches(mime: string, pattern: string) {
    var m := Lower(mime);
    var p := Lower(pattern);
    if IsWildcard(p) then TypeOf(m) == Some(p[..|p| - 2]) else m == p
  }

  /** The allow-list: empty admits everything, otherwise some pattern must match. */
  predicate MimeAllowed(mime: string, patterns: seq<string>) {
    |patterns| == 0 || exists i :: 0 <= i < |patterns| && MimeMatches(mime, patterns[i])
  }

  lemma LowerAppend(s: string, t: string)
    ensures Lower(s + t) == Lower(s) + Lower(t)
  {
  }

  /** The wildcard for type `t` matches exactly the MIME types whose type part is `t`, ignoring case. */
  lemma WildcardMatches(mime: string, t: string)
    requires forall i :: 0 <= i < |t| ==> t[i] != '/'
    ensures MimeMatches(mime, t + "/*") <==> TypeOf(Lower(mime)) == Some(Lower(t))
  {
    var p := Lower(t + "/*");
    LowerAppend(t, "/*");
    assert Lower("/*") == "/*";
    assert p == Lower(t) + "/*";
    assert p[|t|] == '/';
    assert forall j :: 0 <= j < |t| ==> p[j] != '/';
    var k := IndexOf(p, '/');
    assert k == |t|;
    assert IsWildcard(p);
    assert p[..|p| - 2] == Lower(t);
  }

  /** A pattern that is not a wildcard matches by case-insensitive equality. */
  lemma ExactMatches(mime: string, pattern: string)
    requires !IsWildcard(Lower(pattern))
    ensures MimeMatches(mime, pattern) <==> Lower(mime) == Lower(pattern)
  {
  }

  lemma IndexOfAt(s: string, c: char, k: nat)
    requires k < |s| && s[k] == c
    requires forall j :: 0 <= j < k ==> s[j] != c
    ensures IndexOf(s, c) == k
  {
  }

  /** Lower-casing leaves a string without capitals unchanged. */
  lemma LowerKeeps(s: string)
    requires forall i :: 0 <= i < |s| ==> !('A' <= s[i] <= 'Z')
    ensures Lower(s) == s
  {
  }

  /** A name with one dot, no directory part and characters on both sides of the dot. */
  predicate PlainPart(s: string) {
    |s| > 0 && forall i :: 0 <= i < |s| ==> s[i] != '.' && s[i] != '/'
  }

  /** A dot followed by a plain part: the shape of a simple extension. */
  predicate DotPart(ext: string) {
    |ext| >= 2 && ext[0] == '.' && PlainPart(ext[1..])
  }

  /**
    A name whose last component is a non-empty stem followed by a simple
    extension has that extension as its suffix, whatever directory comes first
    and whatever dots the stem holds.
  */
  lemma SuffixOfPath(dir: string, stem: string, ext: string)
    requires |stem| > 0 && (forall i :: 0 <= i < |stem| ==> stem[i] != '/')
    requires DotPart(ext)
    ensures Suffix(dir + stem + ext) == ext
  {
    var rest := stem + ext;
    var f := dir + stem + ext;
    assert f == dir + rest;
    BaseNameEndsWith(dir, rest);
    var name := BaseName(f);
    assert name[|name| - |ext|..] == rest[|stem|..] == ext;
    DotPartDots(ext);
    LastDotOfSuffix(name, ext);
    SuffixAtLastDot(f);
  }

  /** When the last '.' of the base name is an inner character, the suffix runs from it to the end. */
  lemma SuffixAtLastDot(filename: string)
    requires 0 < LastIndexOf(BaseName(filename), '.') < |BaseName(filename)| - 1
    ensures Suffix(filename) == BaseName(filename)[LastIndexOf(BaseName(filename), '.')..]
  { }

  lemma DotPartDots(ext: string)
    requires DotPart(ext)
    ensures forall j :: 0 < j < |ext| ==> ext[j] != '.'
  {
    assert forall j :: 0 < j < |ext| ==> ext[j] == ext[1..][j - 1];
  }

  /** A name ending in a '.' followed by no other '.' has its last '.' there. */
  lemma LastDotOfSuffix(name: string, ext: string)
    requires 1 <= |ext| <= |name| && name[|name| - |ext|..] == ext
    requires ext[0] == '.' && forall j :: 0 < j < |ext| ==> ext[j] != '.'
    ensures LastIndexOf(name, '.') == |name| - |ext|
  {
    var i := |name| - |ext|;
    assert forall j :: i <= j < |name| ==> name[j] == ext[j - i];
    LastIndexOfAt(name, '.', i);
  }

  /** The last component of `dir + rest`, for a `rest` without '/', ends with `rest`. */
  lemma BaseNameEndsWith(dir: string, rest: string)
    requires forall i :: 0 <= i < |rest| ==> rest[i] != '/'
    ensures |BaseName(dir + rest)| >= |rest|
    ensures BaseName(dir + rest)[|BaseName(dir + rest)| - |rest|..] == rest
  {
    var f := dir + rest;
    assert forall j :: |dir| <= j < |f| ==> f[j] == rest[j - |dir|];
    assert LastIndexOf(f, '/') < |dir|;
    assert f[|dir|..] == rest;
  }

  lemma LastIndexOfAt(s: string, c: char, k: nat)
    requires k < |s| && s[k] == c
    requires forall j :: k < j < |s| ==> s[j] != c
    ensures LastIndexOf(s, c) == k
  {
  }

  lemma SuffixOfPlainName(stem: string, ext: string)
    requires PlainPart(stem) && DotPart(ext)
    ensures Suffix(stem + ext) == ext
  {
    var s := stem + ext;
    assert forall j :: 0 <= j < |s| ==> s[j] != '/';
    assert BaseName(s) == s;
    assert s[|stem|] == '.';
    assert forall j :: |stem| < j < |s| ==> s[j] == ext[1..][j - |stem| - 1];
    assert LastIndexOf(s, '.') == |stem|;
    assert s[|stem|..] == ext;
  }

  /** The MIME type of a name ending in `stem.ext` is looked up from `.ext`, ignoring case. */
  lemma InferMimeOfPath(dir: string, stem: string, ext: string)
    requires |stem| > 0 && (forall i :: 0 <= i < |stem| ==> stem[i] != '/')
    requires DotPart(ext)
    ensures InferMime(dir + stem + ext) == MimeForSuffix(Lower(ext))
  {
    SuffixOfPath(dir, stem, ext);
  }

  /** The MIME type of `stem.ext` is looked up from `.ext`, ignoring case. */
  lemma InferMimeOfPlainName(stem: string, ext: string)
    requires PlainPart(stem) && DotPart(ext)
    ensures InferMime(stem + ext) == MimeForSuffix(Lower(ext))
  {
    SuffixOfPlainName(stem, ext);
  }

  /** For a lower-case extension the table is consulted with the extension as written. */
  lemma InferMimeOfLowerName(stem: string, ext: string)
    requires PlainPart(stem) && DotPart(ext)
    requires forall i :: 0 <= i < |ext| ==> !('A' <= ext[i] <= 'Z')
    ensures InferMime(stem + ext) == MimeForSuffix(ext)
  {
    InferMimeOfPlainName(stem, ext);
    LowerKeeps(ext);
  }

  /** Matching works on the two-part structure, not on a raw string prefix. */
  lemma TwoPartMatching(sub: string)
    requires forall i :: 0 <= i < |sub| ==> sub[i] != '/' && !('A' <= sub[i] <= 'Z')
    ensures MimeMatches("image/" + sub, "image/*")
    ensures !MimeMatches("image/" + sub, "images/*")
  {
    var m := "image/" + sub;
    LowerKeeps(m);
    LowerKeeps("image");
    LowerKeeps("images");
    IndexOfAt(m, '/', 5);
    assert "image/*" == "image" + "/*";
    assert "images/*" == "images" + "/*";
    WildcardMatches(m, "image");
    WildcardMatches(m, "images");
    assert m[..5] == "image";
  }

  /** With an allow-list holding only the image wildcard, images are admitted and text is not. */
  lemma ImageAllowList(sub: string)
    requires forall i :: 0 <= i < |sub| ==> sub[i] != '/' && !('A' <= sub[i] <= 'Z')
    ensures MimeAllowed("image/" + sub, ["image/*"])
    ensures !MimeAllowed("text/" + sub, ["image/*"])
  {
    var image, text := "image/" + sub, "text/" + sub;
    LowerKeeps(image);
    LowerKeeps(text);
    LowerKeeps("image");
    IndexOfAt(image, '/', 5);
    IndexOfAt(text, '/', 4);
    assert "image/*" == "image" + "/*";
    WildcardMatches(image, "image");
    WildcardMatches(text, "image");
    assert image[..5] == "image" && text[..4] != "image";
    var patterns := ["image/*"];
    assert MimeMatches(image, patterns[0]);
  }
}
