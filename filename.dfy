/**
  How `download_pdf` chooses the local file name when the caller supplies
  none: take the URL's basename, replace every character that is not a word
  character, `.` or `-` by `_`, and append `.pdf` unless the name already ends
  in `.pdf` in any case.

  Word characters are modelled as the ASCII letters, the digits and `_`.
*/
module Filename {
  import opened Wrappers
  import opened PathText

  predicate IsWordChar(c: char)
  {
    'a' <= c <= 'z' || 'A' <= c <= 'Z' || '0' <= c <= '9' || c == '_'
  }

  /** The characters the substitution leaves alone: `\w`, `.` and `-`. */
  predicate IsSafeChar(c: char)
  {
    IsWordChar(c) || c == '.' || c == '-'
  }

  predicate IsSafeName(s: string)
  {
    forall i :: 0 <= i < |s| ==> IsSafeChar(s[i])
  }

  /** The character class substitution, applied to every character. */
  function Sanitize(s: string): (r: string)
    ensures |r| == |s|
    ensures forall i :: 0 <= i < |s| && IsSafeChar(s[i]) ==> r[i] == s[i]
    ensures forall i :: 0 <= i < |s| && !IsSafeChar(s[i]) ==> r[i] == '_'
    ensures IsSafeName(r)
  {
    if s == [] then []
    else [if IsSafeChar(s[0]) then s[0] else '_'] + Sanitize(s[1..])
  }

  /** A name made of safe characters only is left unchanged. */
  lemma {:induction false} SanitizeSafeName(s: string)
    requires IsSafeName(s)
    ensures Sanitize(s) == s
  {
  }

  lemma {:induction false} SafeNameWithSuffix(name: string)
    requires IsSafeName(name)
    ensures IsSafeName(name + ".pdf")
  {
    var r := name + ".pdf";
    forall i | 0 <= i < |r| ensures IsSafeChar(r[i]) {
      if i >= |name| {
        assert r[i] == ".pdf"[i - |name|];
      } else {
        assert r[i] == name[i];
      }
    }
  }

  lemma SafeNameHasNoSlash(s: string)
    requires IsSafeName(s)
    ensures '/' !in s
  {
  }

  /** The `.pdf` rule: the suffix is added only when it is missing. */
  function EnsurePdfSuffix(name: string): (r: string)
    ensures HasPdfSuffix(r)
    ensures HasPdfSuffix(name) ==> r == name
    ensures !HasPdfSuffix(name) ==> r == name + ".pdf"
  {
    AppendedPdfSuffix(name);
    if HasPdfSuffix(name) then name else name + ".pdf"
  }

  /** The whole derivation for a URL with no caller-supplied name. */
  function DeriveFilename(url: string): (r: string)
    ensures IsSafeName(r)
    ensures HasPdfSuffix(r)
    ensures '/' !in r && |r| >= 4
  {
    var name := Sanitize(Basename(url));
    var r := EnsurePdfSuffix(name);
    SafeNameWithSuffix(name);
    SafeNameHasNoSlash(r);
    PdfSuffixIsLastFour(r);
    r
  }

  /** `filename` as `download_pdf` settles it: a non-empty name from the
      caller is used as given; None or the empty string means derive one. */
  function ResolveFilename(url: string, filename: Option<string>): (r: string)
    ensures filename.Some? && filename.value != "" ==> r == filename.value
    ensures filename.None? || filename.value == "" ==> r == DeriveFilename(url)
    ensures filename.None? || filename.value == "" ==> IsSafeName(r) && HasPdfSuffix(r) && '/' !in r
  {
    if filename.Some? && filename.value != "" then filename.value else DeriveFilename(url)
  }

  /** The derived name has the basename's length, plus four exactly when the
      `.pdf` suffix was missing. */
  lemma DeriveFilenameLength(url: string)
    ensures var base := Basename(url);
      |DeriveFilename(url)| == if HasPdfSuffix(Sanitize(base)) then |base| else |base| + 4
  {
  }

  /** The characters of `.pdf` are all safe, so a basename that already ends
      in `.pdf` (in any case, e.g. `.PDF`) keeps that ending after sanitising,
      and nothing is appended: the derived name is the sanitised basename,
      with its case and length. */
  lemma {:induction false} ExistingSuffixKept(url: string)
    requires HasPdfSuffix(Basename(url))
    ensures DeriveFilename(url) == Sanitize(Basename(url))
    ensures |DeriveFilename(url)| == |Basename(url)|
  {
    var name := Sanitize(Basename(url));
    SanitizeKeepsPdfSuffix(Basename(url));
    assert EnsurePdfSuffix(name) == name;
  }

  /** Sanitising never breaks the suffix test. */
  lemma SanitizeKeepsPdfSuffix(s: string)
    requires HasPdfSuffix(s)
    ensures HasPdfSuffix(Sanitize(s))
  {
    var name := Sanitize(s);
    var n := |s|;
    var low, lowName := Lower(s), Lower(name);
    PdfSuffixIsSafe(s);
    assert low[n - 4..] == ".pdf";
    forall k | 0 <= k < 4
      ensures lowName[n - 4 + k] == ".pdf"[k]
    {
      var i := n - 4 + k;
      assert name[i] == s[i];
      assert low[i] == low[n - 4..][k];
    }
    assert lowName[n - 4..] == ".pdf";
  }

  /** The last four characters of a name that passes the suffix test are
      `.`, `p`, `d`, `f` in some case, all of them safe. */
  lemma PdfSuffixIsSafe(s: string)
    requires HasPdfSuffix(s)
    ensures forall i :: |s| - 4 <= i < |s| ==> IsSafeChar(s[i])
  {
    var n := |s|;
    var low := Lower(s);
    forall i | n - 4 <= i < n
      ensures IsSafeChar(s[i])
    {
      var k := i - (n - 4);
      assert low[i] == low[n - 4..][k];
      assert LowerChar(s[i]) == ".pdf"[k];
      if k == 0 {
        assert s[i] == '.';
      } else {
        assert 'a' <= LowerChar(s[i]) <= 'z';
      }
    }
  }

  /** Deriving is idempotent: a derived name has no `/`, only safe characters
      and the suffix, so putting it through basename, substitution and the
      suffix rule again returns it unchanged. */
  lemma {:induction false} DeriveFilenameIdempotent(url: string)
    ensures DeriveFilename(DeriveFilename(url)) == DeriveFilename(url)
  {
    var f := DeriveFilename(url);
    BasenameOfPlainName(f);
    SanitizeSafeName(f);
  }

  /** A caller-supplied name is not sanitised: even one holding `/`, `?` or
      no `.pdf` suffix (say `../a?b`) is used verbatim; only the empty string
      falls back to the derived name. */
  lemma SuppliedNameVerbatim(url: string, name: string)
    requires name != ""
    ensures ResolveFilename(url, Some(name)) == name
    ensures ResolveFilename(url, Some("")) == DeriveFilename(url)
  {
  }
}
