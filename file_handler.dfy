/**
 * The naming logic of the file routes: the blob names `upload` stores a
 * file under, and the name filter `remove` deletes blobs by. The storage
 * calls themselves, PDF splitting and the search-index clean-up are outside
 * the model.
 */
module FileHandler {
  import opened Wrappers
  import opened PyText
  import opened BlobNaming

  /**
   * The blob names `upload` writes, in order: one per page for a PDF upload
   * (by its content type), else the one name for page DEFAULT_PAGE.
   */
  function UploadBlobNames(filename: string, pdfContent: bool, pageCount: nat): (names: seq<string>)
    ensures pdfContent ==> |names| == pageCount && forall i :: 0 <= i < pageCount ==> names[i] == BlobNameFromFilePage(filename, i)
    ensures !pdfContent ==> names == [BlobNameFromFilePage(filename, DEFAULT_PAGE)]
  {
    if pdfContent then seq(pageCount, i requires 0 <= i < pageCount => BlobNameFromFilePage(filename, i))
    else [BlobNameFromFilePage(filename, DEFAULT_PAGE)]
  }

  /** The page blobs of a PDF upload are pairwise distinct: no page overwrites another. */
  lemma UploadNamesDistinct(filename: string, pageCount: nat, i: nat, j: nat)
    requires IsPdf(filename) && i < j < pageCount
    ensures UploadBlobNames(filename, true, pageCount)[i] != UploadBlobNames(filename, true, pageCount)[j]
  {
    PageNamesDistinct(filename, i, j);
  }

  /** The characters that are not literal in a Python regular expression. */
  const REGEX_META: set<char> := {'.', '^', '$', '*', '+', '?', '{', '}', '[', ']', '\\', '|', '(', ')'}

  predicate RegexLiteral(s: string)
  {
    forall i :: 0 <= i < |s| ==> s[i] !in REGEX_META
  }

  /**
   * Line 86 as written, for a file whose stem is a literal pattern:
   * re.match(f"{prefix}-\d+\.*", blob) holds when the blob name starts with
   * the stem, a dash and a digit (`\.*` also matches nothing).
   */
  predicate RemoveMatches(filename: string, blob: string)
    requires RegexLiteral(Stem(filename))
  {
    var prefix := Stem(filename);
    |blob| > |prefix| + 1 && blob[..|prefix| + 1] == prefix + "-" && IsDigit(blob[|prefix| + 1])
  }

  /** Lines 84-90: the blobs listed under the stem of the prefix and kept by the pattern. */
  predicate RemoveSelects(filename: string, blob: string)
    requires RegexLiteral(Stem(filename))
  {
    Stem(Stem(filename)) <= blob && RemoveMatches(filename, blob)
  }

  /** `r` is `s` with some items left out: the rest keep their order. */
  predicate Subsequence<T(==)>(r: seq<T>, s: seq<T>)
    decreases |s|
  {
    if r == [] then true
    else if s == [] then false
    else (r[0] == s[0] && Subsequence(r[1..], s[1..])) || Subsequence(r, s[1..])
  }

  /** The items of `s` that satisfy `p`, in order. */
  function Filter<T(!new)>(s: seq<T>, p: T -> bool): (r: seq<T>)
    ensures forall x :: x in r <==> x in s && p(x)
    ensures forall x :: multiset(r)[x] == (if p(x) then multiset(s)[x] else 0)
    ensures Subsequence(r, s)
    ensures |r| <= |s|
  {
    if s == [] then []
    else
      assert s == [s[0]] + s[1..];
      var rest := Filter(s[1..], p);
      if p(s[0]) then
        assert ([s[0]] + rest)[1..] == rest;
        [s[0]] + rest
      else rest
  }

  /**
   * Lines 81-90: the blobs `remove` deletes from a listing of the container,
   * in listing order: all of them when no file is named.
   */
  function RemovedBlobs(filename: Option<string>, listing: seq<string>): (removed: seq<string>)
    requires filename.Some? ==> RegexLiteral(Stem(filename.value))
    ensures filename.None? ==> removed == listing
    ensures filename.Some? ==> forall b :: b in removed <==> b in listing && RemoveSelects(filename.value, b)
    ensures filename.Some? ==> Subsequence(removed, listing)
  {
    if filename.None? then listing
    else Filter(listing, b => RemoveSelects(filename.value, b))
  }

  /** The prefix match of the pattern already implies the listing prefix. */
  lemma RemoveListingImplied(filename: string, blob: string)
    requires RegexLiteral(Stem(filename)) && RemoveMatches(filename, blob)
    ensures RemoveSelects(filename, blob)
  {
    var prefix := Stem(filename);
    assert Basename(prefix) == prefix;
    assert prefix <= blob by {
      assert blob[..|prefix|] == (prefix + "-")[..|prefix|];
    }
  }

  /** The filter of `remove` selects every page blob `upload` stored for the same PDF. */
  lemma RemoveAcceptsUploaded(filename: string, pageCount: nat, i: nat)
    requires IsPdf(filename) && RegexLiteral(Stem(filename)) && i < pageCount
    ensures RemoveSelects(filename, UploadBlobNames(filename, true, pageCount)[i])
  {
    var name := BlobNameFromFilePage(filename, i);
    BlobNameShape(filename, i);
    var stem := Stem(filename);
    assert name[|stem| + 1] == IntToString(i)[0] by {
      assert name[|stem| + 1..|name| - 4][0] == name[|stem| + 1];
    }
    RemoveListingImplied(filename, name);
  }

  // ---------------------------------------------------------------------
  // What removal evidently means: exactly the names upload produced
  // ---------------------------------------------------------------------

  /**
   * A blob `upload` may have stored for `filename`: for a PDF, the stem, a
   * dash, a decimal page number as `str` writes it, and `.pdf`; otherwise
   * the base name.
   */
  predicate IsUploadedBlobName(filename: string, blob: string)
  {
    if IsPdf(filename) then
      var stem := Stem(filename);
      && |blob| >= |stem| + 6
      && blob[..|stem| + 1] == stem + "-"
      && blob[|blob| - 4..] == ".pdf"
      && Canonical(blob[|stem| + 1..|blob| - 4])
    else blob == Basename(filename)
  }

  /** IsUploadedBlobName holds of exactly the names of the file's pages. */
  lemma UploadedBlobNameExact(filename: string, blob: string)
    ensures IsUploadedBlobName(filename, blob) <==> exists i: nat :: blob == BlobNameFromFilePage(filename, i)
  {
    if IsUploadedBlobName(filename, blob) {
      UploadedIsPageName(filename, blob);
    }
    forall i: nat | blob == BlobNameFromFilePage(filename, i)
      ensures IsUploadedBlobName(filename, blob)
    {
      PageNameIsUploaded(filename, i);
    }
  }

  /**
   * What lines 81-90 evidently intend: delete exactly the listed blobs that
   * `upload` stored for the file, or every listed blob when no file is named.
   */
  function IntendedRemovedBlobs(filename: Option<string>, listing: seq<string>): (removed: seq<string>)
    ensures filename.None? ==> removed == listing
    ensures filename.Some? ==> forall b :: b in removed <==>
      b in listing && exists i: nat :: b == BlobNameFromFilePage(filename.value, i)
  {
    if filename.None? then listing
    else
      UploadedBlobNamesExact(filename.value);
      Filter(listing, b => IsUploadedBlobName(filename.value, b))
  }

  lemma UploadedBlobNamesExact(filename: string)
    ensures forall b :: IsUploadedBlobName(filename, b) <==> exists i: nat :: b == BlobNameFromFilePage(filename, i)
  {
    forall b
      ensures IsUploadedBlobName(filename, b) <==> exists i: nat :: b == BlobNameFromFilePage(filename, i)
    {
      UploadedBlobNameExact(filename, b);
    }
  }

  /** Every name IsUploadedBlobName accepts is the name of one of the file's pages. */
  lemma UploadedIsPageName(filename: string, blob: string)
    requires IsUploadedBlobName(filename, blob)
    ensures exists i: nat :: blob == BlobNameFromFilePage(filename, i)
  {
    if IsPdf(filename) {
      UploadedPdfIsPageName(filename, blob);
    } else {
      assert blob == BlobNameFromFilePage(filename, DEFAULT_PAGE);
    }
  }

  lemma UploadedPdfIsPageName(filename: string, blob: string)
    requires IsPdf(filename) && IsUploadedBlobName(filename, blob)
    ensures exists i: nat :: blob == BlobNameFromFilePage(filename, i)
  {
    var stem := Stem(filename);
    Reassemble(blob, stem + "-", ".pdf");
    PdfPageNameOf(filename, blob[|stem| + 1..|blob| - 4]);
  }

  /** A canonical numeral between the stem and `.pdf` names the page it spells. */
  lemma PdfPageNameOf(filename: string, digits: string)
    requires IsPdf(filename) && Canonical(digits)
    ensures BlobNameFromFilePage(filename, ParseNat(digits)) == Stem(filename) + "-" + digits + ".pdf"
  {
    NatToStringOfParseNat(digits);
  }

  /** A string with a known head and tail is the head, the middle and the tail. */
  lemma Reassemble(s: string, head: string, tail: string)
    requires |s| >= |head| + |tail| && s[..|head|] == head && s[|s| - |tail|..] == tail
    ensures s == head + s[|head|..|s| - |tail|] + tail
  {
    assert s == s[..|head|] + s[|head|..|s| - |tail|] + s[|s| - |tail|..];
  }

  /** IsUploadedBlobName accepts the name of every page of the file. */
  lemma PageNameIsUploaded(filename: string, i: nat)
    ensures IsUploadedBlobName(filename, BlobNameFromFilePage(filename, i))
  {
    BlobNameShape(filename, i);
  }

  /**
   * Lines 84-86 as written select the blobs of another file: removing
   * `<stem>.pdf` also deletes every page blob of `<stem>-2.pdf` (removing
   * `report.pdf` deletes `report-2-0.pdf`), which `upload` never stored
   * for `<stem>.pdf`.
   */
  lemma RemoveOvermatches(filename: string, page: nat)
    requires IsPdf(filename) && RegexLiteral(Stem(filename))
    ensures var other := Stem(filename) + "-2" + ".pdf";
      var blob := BlobNameFromFilePage(other, page);
      && IsPdf(other)
      && RemoveSelects(filename, blob)
      && !IsUploadedBlobName(filename, blob)
  {
    var stem := Stem(filename);
    OtherBlob(stem, page);
    var blob := BlobNameFromFilePage(stem + "-2" + ".pdf", page);
    OtherBlobShape(stem, IntToString(page), blob);
    RemoveListingImplied(filename, blob);
  }

  /** The page blobs of `<stem>-2.pdf`. */
  lemma OtherBlob(stem: string, page: nat)
    requires '/' !in stem
    ensures var other := stem + "-2" + ".pdf";
      && IsPdf(other)
      && BlobNameFromFilePage(other, page) == stem + "-2" + "-" + IntToString(page) + ".pdf"
  {
    var s := stem + "-2";
    assert s[|stem|] == '-';
    PdfNamed(s);
  }

  /** `<stem>-2-<d>.pdf` starts like a page of `<stem>.pdf`, but its page part is not a numeral. */
  lemma OtherBlobShape(stem: string, d: string, blob: string)
    requires blob == stem + "-2" + "-" + d + ".pdf"
    ensures |blob| > |stem| + 1 && blob[..|stem| + 1] == stem + "-" && IsDigit(blob[|stem| + 1])
    ensures |blob| >= |stem| + 6 && !AllDigits(blob[|stem| + 1..|blob| - 4])
  {
    assert blob[..|stem| + 1] == stem + "-";
    assert blob[|stem| + 1..|blob| - 4][1] == '-';
  }

  /**
   * Lines 84-86 as written never select the one blob `upload` stores for a
   * file that is not a PDF: its name continues after the stem with the
   * extension's dot, or not at all, never with `-`.
   */
  lemma RemoveMissesNonPdf(filename: string)
    requires !IsPdf(filename) && RegexLiteral(Stem(filename))
    ensures var blob := BlobNameFromFilePage(filename, DEFAULT_PAGE);
      && blob == UploadBlobNames(filename, false, 1)[0]
      && IsUploadedBlobName(filename, blob)
      && !RemoveSelects(filename, blob)
  {
    var b := Basename(filename);
    NoDashAfterStem(SplitExt(b).0, SplitExt(b).1);
  }

  /** A name that is a stem and an extension has no `-` right after the stem. */
  lemma NoDashAfterStem(stem: string, ext: string)
    requires ext == [] || ext[0] == '.'
    ensures var n := stem + ext; !(|n| > |stem| + 1 && n[..|stem| + 1] == stem + "-")
  {
    var n := stem + ext;
    if |n| > |stem| + 1 {
      assert n[..|stem| + 1][|stem|] == n[|stem|] == '.';
    }
  }
}
