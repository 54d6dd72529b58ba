/**
  The string operations the scraper borrows from Python: `str.lower`,
  `str.endswith('.pdf')`, and `os.path.basename` / `os.path.join` as the
  POSIX `posixpath` module defines them.
*/
module PathText {

  /** ASCII lower-casing of one character: only upper-case letters are
      changed, and each into a lower-case letter. */
  function LowerChar(c: char): (r: char)
    ensures r != c ==> 'A' <= c <= 'Z' && 'a' <= r <= 'z'
  {
    if 'A' <= c <= 'Z' then (c as int - 'A' as int + 'a' as int) as char else c
  }

  /** `s.lower()`, character by character. */
  function Lower(s: string): (r: string)
    ensures |r| == |s|
    ensures forall i :: 0 <= i < |s| ==> r[i] == LowerChar(s[i])
  {
    if s == [] then [] else [LowerChar(s[0])] + Lower(s[1..])
  }

  predicate EndsWith(s: string, suffix: string)
  {
    |suffix| <= |s| && s[|s| - |suffix|..] == suffix
  }

  /** `s.lower().endswith('.pdf')`; only a string of four or more characters
      can pass. */
  predicate HasPdfSuffix(s: string)
    ensures HasPdfSuffix(s) ==> |s| >= 4
  {
    EndsWith(Lower(s), ".pdf")
  }

  /** Lower-casing commutes with concatenation. */
  lemma {:induction false} LowerAppend(a: string, b: string)
    ensures Lower(a + b) == Lower(a) + Lower(b)
  {
    var l := Lower(a + b);
    assert |l| == |Lower(a) + Lower(b)|;
    forall i | 0 <= i < |l|
      ensures l[i] == (Lower(a) + Lower(b))[i]
    {
      if i < |a| {
        assert (a + b)[i] == a[i];
      } else {
        assert (a + b)[i] == b[i - |a|];
      }
    }
  }

  /** The suffix test looks at the last four characters only, so whatever
      precedes a `.pdf` (in any case) does not matter, and appending `.pdf`
      always satisfies it. */
  lemma {:induction false} PdfSuffixIsLastFour(s: string)
    ensures HasPdfSuffix(s) <==> |s| >= 4 && Lower(s[|s| - 4..]) == ".pdf"
  {
    if |s| >= 4 {
      assert s == s[..|s| - 4] + s[|s| - 4..];
      LowerAppend(s[..|s| - 4], s[|s| - 4..]);
      assert Lower(s)[|s| - 4..] == Lower(s[|s| - 4..]);
    }
  }

  lemma AppendedPdfSuffix(s: string)
    ensures HasPdfSuffix(s + ".pdf")
  {
    PdfSuffixIsLastFour(s + ".pdf");
    assert (s + ".pdf")[|s + ".pdf"| - 4..] == ".pdf";
    assert Lower(".pdf") == ".pdf";
  }

  /** `os.path.basename(p)`: everything after the last `/` (all of `p` when
      it holds no `/`, the empty string when it ends in `/`). */
  function Basename(p: string): (r: string)
    ensures '/' !in r && |r| <= |p|
  {
    if p == [] || p[|p| - 1] == '/' then []
    else Basename(p[..|p| - 1]) + [p[|p| - 1]]
  }

  /** The basename is the last component: a suffix of the path that is
      either the whole path or preceded by a `/`. */
  lemma {:induction false} BasenameIsLastComponent(p: string)
    ensures var r := Basename(p);
      r == p[|p| - |r|..] && (|r| < |p| ==> p[|p| - |r| - 1] == '/')
  {
    if p != [] && p[|p| - 1] != '/' {
      var init := p[..|p| - 1];
      BasenameIsLastComponent(init);
      var b := Basename(init);
      assert Basename(p) == b + [p[|p| - 1]];
      assert b == init[|init| - |b|..];
      assert p[|p| - |b| - 1..] == init[|init| - |b|..] + [p[|p| - 1]];
    }
  }

  /** A name without `/` is its own basename. */
  lemma {:induction false} BasenameOfPlainName(p: string)
    requires '/' !in p
    ensures Basename(p) == p
  {
    BasenameIsLastComponent(p);
  }

  /** `os.path.join(a, b)` for two components: an absolute `b` replaces `a`;
      otherwise a `/` is inserted unless `a` is empty or already ends in one. */
  function PathJoin(a: string, b: string): (r: string)
    ensures EndsWith(r, b)
    ensures |b| > 0 && b[0] == '/' ==> r == b
    ensures (|b| == 0 || b[0] != '/') ==> |a| <= |r| && r[..|a|] == a
  {
    if |b| > 0 && b[0] == '/' then b
    else if a == [] || a[|a| - 1] == '/' then a + b
    else a + "/" + b
  }

  /** A plain, non-empty file name joined onto a directory is the basename of
      the resulting path: the file lands directly inside that directory. */
  lemma {:induction false} BasenameOfJoin(dir: string, name: string)
    requires name != [] && '/' !in name
    ensures Basename(PathJoin(dir, name)) == name
  {
    assert name[0] in name;
    if dir == [] || dir[|dir| - 1] == '/' {
      BasenameAfterSeparator(dir, name);
    } else {
      BasenameAfterSeparator(dir + "/", name);
      assert dir + "/" + name == (dir + "/") + name;
    }
  }

  /** Below a directory prefix that is empty or ends in `/`, the basename is
      whatever plain name follows. */
  lemma {:induction false} BasenameAfterSeparator(prefix: string, name: string)
    requires prefix == [] || prefix[|prefix| - 1] == '/'
    requires '/' !in name
    ensures Basename(prefix + name) == name
  {
    if name != [] {
      var init := name[..|name| - 1];
      var last := name[|name| - 1];
      assert '/' !in init by {
        forall i | 0 <= i < |init| ensures init[i] != '/' {
          assert init[i] == name[i];
          assert name[i] in name;
        }
      }
      assert last != '/' by {
        assert last in name;
      }
      BasenameAfterSeparator(prefix, init);
      var p := prefix + name;
      assert p[|p| - 1] == last;
      assert p[..|p| - 1] == prefix + init;
      assert Basename(p) == Basename(prefix + init) + [last];
      assert name == init + [last];
    } else {
      assert prefix + name == prefix;
    }
  }
}
