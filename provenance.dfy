/**
 * create_sections: turns the sections of a document into the records the
 * search index stores. Each record carries an id derived from the file name
 * and the section's position, the section text, the caller's category, the
 * blob name of the page the section starts on, and the file name.
 */
module Provenance {
  import opened Wrappers
  import opened PyText
  import opened PageMapper
  import opened Sectionizer
  import opened BlobNaming
  import opened FileHandler

  datatype Record = Record(id: string, content: string, category: Option<string>, sourcepage: string, sourcefile: string)

  /** The characters the id pattern `[^0-9a-zA-Z_-]` leaves alone. */
  predicate IdChar(c: char)
  {
    '0' <= c <= '9' || 'a' <= c <= 'z' || 'A' <= c <= 'Z' || c == '_' || c == '-'
  }

  function SanitizeChar(c: char): char
  {
    if IdChar(c) then c else '_'
  }

  /** re.sub("[^0-9a-zA-Z_-]", "_", s): every other character becomes `_`. */
  function SanitizeId(s: string): (r: string)
    ensures |r| == |s|
    ensures forall k :: 0 <= k < |s| ==> r[k] == SanitizeChar(s[k])
  {
    if s == [] then [] else [SanitizeChar(s[0])] + SanitizeId(s[1..])
  }

  /** A sanitized id consists of id characters only, and sanitizing it again changes nothing. */
  lemma SanitizeIdClean(s: string)
    ensures forall k :: 0 <= k < |s| ==> IdChar(SanitizeId(s)[k])
    ensures SanitizeId(SanitizeId(s)) == SanitizeId(s)
    ensures (forall k :: 0 <= k < |s| ==> IdChar(s[k])) ==> SanitizeId(s) == s
  {
  }

  /** Sanitizing works character by character, so it distributes over concatenation. */
  lemma SanitizeIdAppend(a: string, b: string)
    ensures SanitizeId(a + b) == SanitizeId(a) + SanitizeId(b)
  {
    assert forall k :: 0 <= k < |a| ==> (a + b)[k] == a[k];
    assert forall k :: |a| <= k < |a| + |b| ==> (a + b)[k] == b[k - |a|];
  }

  /** Line 105: the id of the section at position `i` of file `filename`. */
  function RecordId(filename: string, i: nat): string
  {
    SanitizeId(filename + "-" + IntToString(i))
  }

  /** The id is the sanitized file name, a dash and the decimal position. */
  lemma RecordIdShape(filename: string, i: nat)
    ensures RecordId(filename, i) == SanitizeId(filename) + "-" + IntToString(i)
  {
    var d := IntToString(i);
    SanitizeIdAppend(filename + "-", d);
    SanitizeIdAppend(filename, "-");
    assert forall k :: 0 <= k < |d| ==> IdChar(d[k]);
    SanitizeIdClean(d);
    SanitizeDash();
  }

  lemma SanitizeDash()
    ensures SanitizeId("-") == "-"
  {
  }

  /** The sections of one file get pairwise distinct ids. */
  lemma RecordIdsDistinct(filename: string, i: nat, j: nat)
    requires i != j
    ensures RecordId(filename, i) != RecordId(filename, j)
  {
    var f := SanitizeId(filename);
    RecordIdShape(filename, i);
    RecordIdShape(filename, j);
    IntToStringInjective(i, j);
    DropHead(f + "-", IntToString(i));
    DropHead(f + "-", IntToString(j));
  }

  lemma DropHead(head: string, s: string)
    ensures (head + s)[|head|..] == s
  {
  }

  /** Lines 104-110: the record of the section at position `i`. */
  function SectionRecord(filename: string, category: Option<string>, i: nat, section: Section): Record
  {
    Record(RecordId(filename, i), section.content, category, BlobNameFromFilePage(filename, section.page), filename)
  }

  /** `[f(0, s[0]), f(1, s[1]), ...]`: a map over a sequence that also passes the position. */
  function Indexed<T, U>(f: (nat, T) -> U, s: seq<T>): (r: seq<U>)
    ensures |r| == |s|
  {
    if s == [] then [] else Indexed(f, s[..|s| - 1]) + [f(|s| - 1, s[|s| - 1])]
  }

  lemma {:induction false} IndexedAt<T, U>(f: (nat, T) -> U, s: seq<T>, i: nat)
    requires i < |s|
    ensures Indexed(f, s)[i] == f(i, s[i])
    decreases |s|
  {
    var n := |s| - 1;
    if i < n {
      IndexedAt(f, s[..n], i);
    }
  }

  lemma IndexedSnoc<T, U>(f: (nat, T) -> U, s: seq<T>, i: nat)
    requires i < |s|
    ensures Indexed(f, s[..i + 1]) == Indexed(f, s[..i]) + [f(i, s[i])]
  {
    assert s[..i + 1][..i] == s[..i];
  }

  /** The records create_sections yields, in order, one per section. */
  function Records(filename: string, category: Option<string>, sections: seq<Section>): (rs: seq<Record>)
    ensures |rs| == |sections|
  {
    Indexed((i: nat, s: Section) => SectionRecord(filename, category, i, s), sections)
  }

  /** The record at position `i` is the record of section `i`. */
  lemma RecordsAt(filename: string, category: Option<string>, sections: seq<Section>, i: nat)
    requires i < |sections|
    ensures Records(filename, category, sections)[i] == SectionRecord(filename, category, i, sections[i])
  {
    IndexedAt((i: nat, s: Section) => SectionRecord(filename, category, i, s), sections, i);
  }

  /** Lines 100-110: the records of the sections split_text yields. */
  method CreateSections(filename: string, pageMap: seq<Entry>, category: Option<string>) returns (records: seq<Record>)
    ensures records == Records(filename, category, Sections(pageMap))
  {
    var sections := SplitText(pageMap);
    records := RecordsOf(filename, category, sections);
  }

  /** Lines 103-110: the enumerate loop over the sections. */
  method RecordsOf(filename: string, category: Option<string>, sections: seq<Section>) returns (records: seq<Record>)
    ensures records == Records(filename, category, sections)
  {
    records := [];
    for i := 0 to |sections|
      invariant records == Records(filename, category, sections[..i])
    {
      IndexedSnoc((i: nat, s: Section) => SectionRecord(filename, category, i, s), sections, i);
      records := records + [SectionRecord(filename, category, i, sections[i])];
    }
    assert sections[..|sections|] == sections;
  }

  /**
   * Every record cites where its text comes from: its content is a window
   * of the document's text, its source page is the blob of the page that
   * window starts on (a name `upload` stores for the file), and it names
   * the file and the category it was indexed under.
   */
  lemma RecordProvenance(filename: string, category: Option<string>, pm: seq<Entry>, i: nat)
    requires WellFormed(pm) && i < |Sections(pm)|
    ensures var r, text, c := Records(filename, category, Sections(pm))[i], AllText(pm), Cuts(AllText(pm), 0)[i];
      && r.id == RecordId(filename, i)
      && r.sourcefile == filename && r.category == category
      && 0 <= c.lo < c.hi <= |text| && r.content == text[c.lo..c.hi]
      && exists k :: 0 <= k < |pm| && pm[k].offset <= c.lo < pm[k].offset + |pm[k].text|
           && r.sourcepage == BlobNameFromFilePage(filename, k)
           && IsUploadedBlobName(filename, r.sourcepage)
  {
    SectionIsSlice(pm, i);
    RecordsAt(filename, category, Sections(pm), i);
    var k := Sections(pm)[i].page;
    PageNameIsUploaded(filename, k);
  }
}
