/**
 * The vendor portal's upload filter: a file is accepted when its name has a dot and the
 * text after the last dot, lower-cased, is one of the allowed extensions.
 */
module Portal {
  import opened Options
  import opened Text

  /** `ALLOWED_EXTENSIONS`. */
  const AllowedExtensions: set<string> := {"txt", "pdf", "json", "csv", "xml"}

  /** The position of the last `c` in `s`. */
  function LastIndexOf(s: string, c: char): (r: Option<nat>)
    ensures r.None? <==> c !in s
    ensures r.Some? ==> r.value < |s| && s[r.value] == c && forall k :: r.value < k < |s| ==> s[k] != c
    decreases |s|
  {
    if s == [] then None
    else if s[|s| - 1] == c then Some(|s| - 1)
    else
      var r := LastIndexOf(s[..|s| - 1], c);
      assert s == s[..|s| - 1] + [s[|s| - 1]];
      r
  }

  /** Position `i` holds the last dot of `name`. */
  predicate LastDotAt(name: string, i: int) {
    0 <= i < |name| && name[i] == '.' && forall k :: i < k < |name| ==> name[k] != '.'
  }

  /** `allowed_file(filename)`: `filename.rsplit('.', 1)[1].lower()` is the text after the
      last dot, lower-cased. */
  function AllowedFile(filename: string): (r: bool)
    ensures r <==> exists i :: LastDotAt(filename, i) && Lower(filename[i + 1..]) in AllowedExtensions
    ensures r ==> '.' in filename
  {
    match LastIndexOf(filename, '.')
    case None => false
    case Some(i) =>
      assert LastDotAt(filename, i);
      assert forall j :: LastDotAt(filename, j) ==> j == i;
      Lower(filename[i + 1..]) in AllowedExtensions
  }

  // ------------------------------------------------------------------ lemmas

  /** A name without a dot is refused. */
  lemma NoDotRefused(filename: string)
    requires '.' !in filename
    ensures !AllowedFile(filename)
  {
  }

  /** Only the last extension counts: whatever the base name, including one with dots of
      its own, appending `.ext` makes the name acceptable exactly when `ext` is an allowed
      extension in some mix of cases. */
  lemma LastExtensionDecides(base: string, ext: string)
    requires '.' !in ext
    ensures AllowedFile(base + "." + ext) <==> Lower(ext) in AllowedExtensions
  {
    var name := base + "." + ext;
    var i := |base|;
    assert name[i] == '.';
    assert forall k :: i < k < |name| ==> name[k] == ext[k - i - 1];
    assert LastDotAt(name, i);
    assert name[i + 1..] == ext;
  }

  /** Lower-casing a name does not change whether it is accepted. */
  lemma CaseDoesNotMatter(filename: string)
    ensures AllowedFile(Lower(filename)) == AllowedFile(filename)
  {
    var l := Lower(filename);
    SameDots(l, filename);
    match LastIndexOf(filename, '.')
    case None =>
    case Some(i) =>
      LowerSuffix(filename, i + 1);
      LowerIdempotent(filename[i + 1..]);
  }

  /** Lower-casing keeps every dot where it was and makes no new ones, so the last dot
      stays in place. */
  lemma {:induction false} SameDots(l: string, s: string)
    requires l == Lower(s)
    ensures LastIndexOf(l, '.') == LastIndexOf(s, '.')
    decreases |s|
  {
    if s != [] {
      var n := |s| - 1;
      assert l[n] == LowerChar(s[n]);
      assert l[n] == '.' <==> s[n] == '.';
      if s[n] != '.' {
        assert l[..n] == Lower(s[..n]);
        SameDots(l[..n], s[..n]);
      }
    }
  }

  lemma LowerSuffix(s: string, j: nat)
    requires j <= |s|
    ensures Lower(s)[j..] == Lower(s[j..])
  {
  }

  lemma LowerIdempotent(s: string)
    ensures Lower(Lower(s)) == Lower(s)
  {
  }

  /** The allowed extensions are lower case, so each is accepted after any base name. */
  lemma ExtensionsAccepted(base: string, ext: string)
    requires ext in AllowedExtensions
    ensures AllowedFile(base + "." + ext)
  {
    assert '.' !in ext && Lower(ext) == ext;
    LastExtensionDecides(base, ext);
  }

  /** A name ending in a dot has an empty extension, which is refused. */
  lemma TrailingDotRefused(base: string)
    ensures !AllowedFile(base + ".")
  {
    assert base + "." == base + "." + "";
    LastExtensionDecides(base, "");
    assert Lower("") == "";
  }
}
