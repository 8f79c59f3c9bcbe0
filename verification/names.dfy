/** `safe_filename_from_url`: the file name a direct download is saved under,
    taken from the last segment of the URL's path with the characters that
    Windows forbids in file names replaced by `_`. */
module Names {
  import opened Common

  /** Separators recognised by `os.path.basename` on Windows, the platform the
      downloader's configured directories belong to. */
  predicate IsSep(c: char) {
    c == '/' || c == '\\'
  }

  /** `os.path.basename`: the longest separator-free tail of `path`. */
  function Basename(path: string): (b: string)
    ensures EndsWith(path, b)
    ensures forall i :: 0 <= i < |b| ==> !IsSep(b[i])
    ensures |b| < |path| ==> IsSep(path[|path| - |b| - 1])
  {
    if |path| == 0 || IsSep(path[|path| - 1]) then ""
    else Basename(path[..|path| - 1]) + [path[|path| - 1]]
  }

  /** The characters replaced by `_`. */
  predicate IsForbidden(c: char) {
    c == '<' || c == '>' || c == ':' || c == '"' || c == '/' || c == '\\'
    || c == '|' || c == '?' || c == '*'
  }

  predicate IsClean(s: string) {
    forall i :: 0 <= i < |s| ==> !IsForbidden(s[i])
  }

  /** Replace each forbidden character by `_`, leaving the others alone. */
  function Sanitise(name: string): (r: string)
    ensures |r| == |name|
    ensures IsClean(r)
    ensures forall i :: 0 <= i < |name| && !IsForbidden(name[i]) ==> r[i] == name[i]
    ensures forall i :: 0 <= i < |name| && IsForbidden(name[i]) ==> r[i] == '_'
  {
    seq(|name|, i requires 0 <= i < |name| => if IsForbidden(name[i]) then '_' else name[i])
  }

  /** `safe_filename_from_url`, given the path component of the URL. */
  function SafeFilename(urlPath: string): (r: string)
    ensures r != ""
    ensures IsClean(r)
    ensures Basename(urlPath) == "" ==> r == "file"
    ensures Basename(urlPath) != "" ==> |r| == |Basename(urlPath)|
    ensures forall i :: 0 <= i < |Basename(urlPath)| && !IsForbidden(Basename(urlPath)[i]) ==> r[i] == Basename(urlPath)[i]
    ensures forall i :: 0 <= i < |Basename(urlPath)| && IsForbidden(Basename(urlPath)[i]) ==> r[i] == '_'
  {
    var name := if Basename(urlPath) == "" then "file" else Basename(urlPath);
    Sanitise(name)
  }

  /** A name is left untouched exactly when it holds no forbidden character. */
  lemma SanitiseFixesExactlyClean(name: string)
    ensures Sanitise(name) == name <==> IsClean(name)
  {
    if !IsClean(name) {
      var i :| 0 <= i < |name| && IsForbidden(name[i]);
      assert Sanitise(name)[i] != name[i];
    }
  }

  /** Sanitising twice is sanitising once. */
  lemma SanitiseIdempotent(name: string)
    ensures Sanitise(Sanitise(name)) == Sanitise(name)
  {
    SanitiseFixesExactlyClean(Sanitise(name));
  }

  /** Whatever precedes the last separator has no influence on the name. */
  lemma {:induction false} SafeFilenameIgnoresDirectories(dirs: string, c: char, last: string)
    requires IsSep(c)
    requires forall i :: 0 <= i < |last| ==> !IsSep(last[i])
    ensures SafeFilename(dirs + [c] + last) == SafeFilename(last)
  {
    BasenameOfLastSegment(dirs, c, last);
    BasenameOfSegment(last);
  }

  lemma {:induction false} BasenameOfLastSegment(dirs: string, c: char, last: string)
    requires IsSep(c)
    requires forall i :: 0 <= i < |last| ==> !IsSep(last[i])
    ensures Basename(dirs + [c] + last) == last
    decreases |last|
  {
    var s := dirs + [c] + last;
    if |last| > 0 {
      assert s[..|s| - 1] == dirs + [c] + last[..|last| - 1];
      BasenameOfLastSegment(dirs, c, last[..|last| - 1]);
    }
  }

  lemma {:induction false} BasenameOfSegment(last: string)
    requires forall i :: 0 <= i < |last| ==> !IsSep(last[i])
    ensures Basename(last) == last
    decreases |last|
  {
    if |last| > 0 {
      BasenameOfSegment(last[..|last| - 1]);
    }
  }
}
