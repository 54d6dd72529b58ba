/**
  Which anchors `extract_pdf_links` keeps. Parsing the page is not modelled:
  a page is its text together with the `href` values of its anchors, in
  document order, as the HTML parser would list them.
*/
module Links {
  import opened Wrappers
  import opened PathText

  /** A fetched listing page: its text and the hrefs of its anchors. */
  datatype Html = Html(text: string, hrefs: seq<string>)

  /** `urljoin(base, href)`: URL resolution is taken as a parameter. */
  type Joiner = (string, string) -> string

  /** The page content is missing (`None`) or empty: both are falsy. */
  predicate IsBlank(content: Option<Html>)
  {
    content.None? || content.value.text == ""
  }

  /** The hrefs that pass `href.lower().endswith('.pdf')`, in order. */
  function PdfHrefs(hrefs: seq<string>): (r: seq<string>)
    ensures |r| <= |hrefs|
    ensures forall h :: h in r ==> h in hrefs && HasPdfSuffix(h)
  {
    if hrefs == [] then []
    else (if HasPdfSuffix(hrefs[0]) then [hrefs[0]] else []) + PdfHrefs(hrefs[1..])
  }

  /** Each kept href resolved against the base URL, position by position. */
  function Resolve(base: string, urljoin: Joiner, hrefs: seq<string>): seq<string>
  {
    seq(|hrefs|, i requires 0 <= i < |hrefs| => urljoin(base, hrefs[i]))
  }

  /** Resolving distributes over concatenation. */
  lemma ResolveAppend(base: string, urljoin: Joiner, a: seq<string>, b: seq<string>)
    ensures Resolve(base, urljoin, a + b) == Resolve(base, urljoin, a) + Resolve(base, urljoin, b)
  {
    var l := Resolve(base, urljoin, a + b);
    var r := Resolve(base, urljoin, a) + Resolve(base, urljoin, b);
    assert |l| == |r|;
    forall i | 0 <= i < |l| ensures l[i] == r[i] {
      if i < |a| {
        assert (a + b)[i] == a[i];
      } else {
        assert (a + b)[i] == b[i - |a|];
      }
    }
  }

  /** What `extract_pdf_links` returns for the given content: nothing for a
      blank page; otherwise every link is the resolution of a `.pdf` href of
      the page, and every `.pdf` href of the page is resolved into a link. */
  function PdfLinks(base: string, urljoin: Joiner, content: Option<Html>): (r: seq<string>)
    ensures IsBlank(content) ==> r == []
    ensures !IsBlank(content) ==> |r| <= |content.value.hrefs|
    ensures forall u :: u in r ==>
      content.Some? && exists h :: h in content.value.hrefs && HasPdfSuffix(h) && u == urljoin(base, h)
    ensures !IsBlank(content) ==>
      forall h :: h in content.value.hrefs && HasPdfSuffix(h) ==> urljoin(base, h) in r
  {
    if IsBlank(content) then []
    else
      var hrefs := content.value.hrefs;
      var kept := PdfHrefs(hrefs);
      var r := Resolve(base, urljoin, kept);
      assert forall u :: u in r ==> exists h :: h in hrefs && HasPdfSuffix(h) && u == urljoin(base, h) by {
        forall u | u in r ensures exists h :: h in hrefs && HasPdfSuffix(h) && u == urljoin(base, h) {
          var i :| 0 <= i < |r| && r[i] == u;
          assert kept[i] in kept;
        }
      }
      assert forall h :: h in hrefs && HasPdfSuffix(h) ==> urljoin(base, h) in r by {
        forall h | h in hrefs && HasPdfSuffix(h) ensures urljoin(base, h) in r {
          PdfHrefsMembership(hrefs, h);
          var i :| 0 <= i < |kept| && kept[i] == h;
          assert r[i] == urljoin(base, h);
        }
      }
      r
  }

  /** Filtering distributes over concatenation: the kept hrefs of a longer
      page are those of its first part followed by those of the rest, so
      document order is preserved. */
  lemma {:induction false} PdfHrefsAppend(a: seq<string>, b: seq<string>)
    ensures PdfHrefs(a + b) == PdfHrefs(a) + PdfHrefs(b)
  {
    if a == [] {
      assert a + b == b;
    } else {
      assert (a + b)[0] == a[0];
      assert (a + b)[1..] == a[1..] + b;
      PdfHrefsAppend(a[1..], b);
    }
  }

  /** Scanning one more anchor appends its resolved href when it ends in
      `.pdf`, and nothing otherwise. */
  lemma PdfLinksStep(base: string, urljoin: Joiner, hrefs: seq<string>, i: nat)
    requires i < |hrefs|
    ensures Resolve(base, urljoin, PdfHrefs(hrefs[..i + 1])) ==
      Resolve(base, urljoin, PdfHrefs(hrefs[..i])) +
      (if HasPdfSuffix(hrefs[i]) then [urljoin(base, hrefs[i])] else [])
  {
    assert hrefs[..i + 1] == hrefs[..i] + [hrefs[i]];
    PdfHrefsAppend(hrefs[..i], [hrefs[i]]);
    var kept := PdfHrefs([hrefs[i]]);
    assert kept == if HasPdfSuffix(hrefs[i]) then [hrefs[i]] else [];
    ResolveAppend(base, urljoin, PdfHrefs(hrefs[..i]), kept);
  }

  /** No de-duplication and nothing invented: a `.pdf` href is kept exactly
      as many times as it occurs, and any other href never. */
  lemma {:induction false} PdfHrefsCount(hrefs: seq<string>, h: string)
    ensures multiset(PdfHrefs(hrefs))[h] == if HasPdfSuffix(h) then multiset(hrefs)[h] else 0
  {
    if hrefs != [] {
      PdfHrefsCount(hrefs[1..], h);
      assert hrefs == [hrefs[0]] + hrefs[1..];
      assert multiset(hrefs) == multiset{hrefs[0]} + multiset(hrefs[1..]);
    }
  }

  /** An href is among the kept ones exactly when it occurs on the page and
      ends in `.pdf` in any case. */
  lemma PdfHrefsMembership(hrefs: seq<string>, h: string)
    ensures h in PdfHrefs(hrefs) <==> h in hrefs && HasPdfSuffix(h)
  {
    PdfHrefsCount(hrefs, h);
    assert h in PdfHrefs(hrefs) <==> multiset(PdfHrefs(hrefs))[h] > 0;
    assert h in hrefs <==> multiset(hrefs)[h] > 0;
  }
}
