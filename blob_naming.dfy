/**
 * blob_name_from_file_page: the name under which one page of an uploaded
 * file is stored, and under which the index records cite it. A PDF (by a
 * case-insensitive `.pdf` extension) is stored page by page as
 * `<stem>-<page>.pdf`; any other file under its base name.
 */
module BlobNaming {
  import opened PyText

  /** The page a caller gets when it names no page. */
  const DEFAULT_PAGE: int := 0

  /** The extension test of the naming helper: `.pdf` in any letter case. */
  predicate IsPdf(filename: string)
  {
    AsciiLower(SplitExt(filename).1) == ".pdf"
  }

  function BlobNameFromFilePage(filename: string, page: int): string
  {
    if IsPdf(filename) then Stem(filename) + "-" + IntToString(page) + ".pdf"
    else Basename(filename)
  }

  /** A blob name has no `/`: every blob is stored at the top of the container. */
  lemma BlobNameFlat(filename: string, page: int)
    ensures '/' !in BlobNameFromFilePage(filename, page)
  {
    if IsPdf(filename) {
      PdfNameFlat(Stem(filename), page);
    }
  }

  lemma PdfNameFlat(stem: string, page: int)
    requires '/' !in stem
    ensures '/' !in stem + "-" + IntToString(page) + ".pdf"
  {
    IntToStringNoSlash(page);
  }

  lemma IntToStringNoSlash(n: int)
    ensures '/' !in IntToString(n)
  {
    var s := IntToString(n);
    if n < 0 {
      assert s == "-" + NatToString(-n);
    }
    assert forall k :: 0 <= k < |s| ==> s[k] != '/';
  }

  /**
   * The name of a page of a PDF is its stem, a dash, the decimal page and
   * `.pdf`, and the page number can be read back from it; any other file is
   * named by its base name, whatever the page.
   */
  lemma BlobNameShape(filename: string, page: int)
    ensures var name, stem := BlobNameFromFilePage(filename, page), Stem(filename);
      && (IsPdf(filename) ==>
            && |name| >= |stem| + 6
            && name[..|stem| + 1] == stem + "-"
            && name[|name| - 4..] == ".pdf"
            && name[|stem| + 1..|name| - 4] == IntToString(page)
            && ParseInt(name[|stem| + 1..|name| - 4]) == page)
      && (!IsPdf(filename) ==> name == Basename(filename) && name == BlobNameFromFilePage(filename, DEFAULT_PAGE))
  {
    if IsPdf(filename) {
      Parts(Stem(filename), "-", IntToString(page), ".pdf");
      ParseIntOfIntToString(page);
    }
  }

  /** Different pages of a PDF get different names. */
  lemma PageNamesDistinct(filename: string, i: int, j: int)
    requires IsPdf(filename) && i != j
    ensures BlobNameFromFilePage(filename, i) != BlobNameFromFilePage(filename, j)
  {
    BlobNameShape(filename, i);
    BlobNameShape(filename, j);
    IntToStringInjective(i, j);
  }

  /** `<stem>.pdf` is a PDF with that stem, when the stem has no `/` and is not all dots. */
  lemma PdfNamed(stem: string)
    requires '/' !in stem && exists k :: 0 <= k < |stem| && stem[k] != '.'
    ensures Stem(stem + ".pdf") == stem && IsPdf(stem + ".pdf")
  {
    SplitExtOf(stem, ".pdf");
    LowerPdf();
  }

  lemma LowerPdf()
    ensures AsciiLower(".pdf") == ".pdf"
  {
  }
}
