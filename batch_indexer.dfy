/**
 * index_sections: uploads the records to the search index in batches of
 * BATCH_SIZE, flushing a full batch as soon as it fills and the partial
 * rest at the end. The search client is a parameter: `upload` gives the
 * per-document success flags the service reports for one batch.
 */
module BatchIndexer {
  import opened Provenance

  const BATCH_SIZE: nat := 1000

  /** The number of batches for `n` records: n / BATCH_SIZE rounded up. */
  function BatchCount(n: nat): nat
  {
    (n + BATCH_SIZE - 1) / BATCH_SIZE
  }

  lemma BatchCountBounds(n: nat)
    ensures (BatchCount(n) - 1) * BATCH_SIZE < n <= BatchCount(n) * BATCH_SIZE
    ensures BatchCount(n) == 0 <==> n == 0
  {
  }

  function Min(a: nat, b: nat): nat
  {
    if a <= b then a else b
  }

  /** Batch `k`: records k * BATCH_SIZE up to the next multiple or the end. */
  function Batch<T>(s: seq<T>, k: nat): seq<T>
    requires k < BatchCount(|s|)
  {
    s[k * BATCH_SIZE..Min((k + 1) * BATCH_SIZE, |s|)]
  }

  /** The uploads index_sections makes, in order. */
  function Batches<T>(s: seq<T>): (bs: seq<seq<T>>)
    ensures |bs| == BatchCount(|s|)
  {
    seq(BatchCount(|s|), k requires 0 <= k < BatchCount(|s|) => Batch(s, k))
  }

  /** The concatenation of a sequence of sequences. */
  function Flatten<T>(ss: seq<seq<T>>): seq<T>
  {
    if ss == [] then [] else Flatten(ss[..|ss| - 1]) + ss[|ss| - 1]
  }

  /** The number of `true` flags: the documents the service accepted. */
  function CountTrue(flags: seq<bool>): (n: nat)
    ensures n <= |flags|
    ensures n == multiset(flags)[true]
  {
    if flags == [] then 0
    else
      assert flags == flags[..|flags| - 1] + [flags[|flags| - 1]];
      CountTrue(flags[..|flags| - 1]) + (if flags[|flags| - 1] then 1 else 0)
  }

  /** The success count of each batch (`succeeded`, once per upload). */
  function Counts<T>(upload: seq<T> -> seq<bool>, bs: seq<seq<T>>): (cs: seq<nat>)
    ensures |cs| == |bs|
  {
    seq(|bs|, k requires 0 <= k < |bs| => CountTrue(upload(bs[k])))
  }

  /** Every batch holds between 1 and BATCH_SIZE records, and all but the last exactly BATCH_SIZE. */
  lemma BatchSizes<T>(s: seq<T>, k: nat)
    requires k < BatchCount(|s|)
    ensures 0 < |Batches(s)[k]| <= BATCH_SIZE
    ensures k + 1 < BatchCount(|s|) ==> |Batches(s)[k]| == BATCH_SIZE
  {
  }

  /** The batches of a prefix of whole batches, and of one more whole batch. */
  lemma BatchesSnoc<T>(s: seq<T>, m: nat)
    requires (m + 1) * BATCH_SIZE <= |s|
    ensures Batches(s[..(m + 1) * BATCH_SIZE]) == Batches(s[..m * BATCH_SIZE]) + [s[m * BATCH_SIZE..(m + 1) * BATCH_SIZE]]
  {
    var full, more := s[..m * BATCH_SIZE], s[..(m + 1) * BATCH_SIZE];
    assert BatchCount(|full|) == m && BatchCount(|more|) == m + 1;
    forall k | 0 <= k < m
      ensures Batches(more)[k] == Batches(full)[k]
    {
      assert (k + 1) * BATCH_SIZE <= m * BATCH_SIZE;
      assert Batch(more, k) == s[k * BATCH_SIZE..(k + 1) * BATCH_SIZE] == Batch(full, k);
    }
    assert Batches(more)[m] == Batch(more, m) == s[m * BATCH_SIZE..(m + 1) * BATCH_SIZE];
  }

  /** The batches of the whole input: the whole batches, then the non-empty rest. */
  lemma BatchesLast<T>(s: seq<T>, m: nat)
    requires m * BATCH_SIZE < |s| <= (m + 1) * BATCH_SIZE
    ensures Batches(s) == Batches(s[..m * BATCH_SIZE]) + [s[m * BATCH_SIZE..]]
  {
    var full := s[..m * BATCH_SIZE];
    assert BatchCount(|full|) == m && BatchCount(|s|) == m + 1;
    forall k | 0 <= k < m
      ensures Batches(s)[k] == Batches(full)[k]
    {
      assert (k + 1) * BATCH_SIZE <= m * BATCH_SIZE;
      assert Batch(s, k) == s[k * BATCH_SIZE..(k + 1) * BATCH_SIZE] == Batch(full, k);
    }
    assert Batches(s)[m] == Batch(s, m) == s[m * BATCH_SIZE..];
  }

  lemma {:induction false} FlattenAppend<T>(ss: seq<seq<T>>, last: seq<T>)
    ensures Flatten(ss + [last]) == Flatten(ss) + last
  {
    assert (ss + [last])[..|ss|] == ss;
  }

  /** Uploading the batches uploads every record once, in order. */
  lemma {:induction false} BatchesFlatten<T>(s: seq<T>)
    ensures Flatten(Batches(s)) == s
    decreases |s|
  {
    var n := BatchCount(|s|);
    if n > 0 {
      var m := n - 1;
      var init := s[..m * BATCH_SIZE];
      BatchesLast(s, m);
      BatchesFlatten(init);
      FlattenAppend(Batches(init), s[m * BATCH_SIZE..]);
      assert init + s[m * BATCH_SIZE..] == s;
    }
  }

  lemma CountsSnoc<T>(upload: seq<T> -> seq<bool>, bs: seq<seq<T>>, b: seq<T>)
    ensures Counts(upload, bs + [b]) == Counts(upload, bs) + [CountTrue(upload(b))]
  {
    assert forall k :: 0 <= k < |bs| ==> (bs + [b])[k] == bs[k];
  }

  /** After appending the b-th record of batch m, the position is a multiple of BATCH_SIZE exactly when the batch is full. */
  lemma FullAt(m: nat, b: nat)
    requires 0 < b <= BATCH_SIZE
    ensures (m * BATCH_SIZE + b) % BATCH_SIZE == 0 <==> b == BATCH_SIZE
  {
    if b < BATCH_SIZE {
      assert (m * BATCH_SIZE + b) % BATCH_SIZE == b;
    } else {
      assert m * BATCH_SIZE + b == (m + 1) * BATCH_SIZE;
    }
  }

  /**
   * Lines 186-199. Returns the batches in the order they are uploaded and
   * the success count computed for each.
   */
  method IndexSections(upload: seq<Record> -> seq<bool>, sections: seq<Record>)
    returns (uploads: seq<seq<Record>>, succeeded: seq<nat>)
    ensures uploads == Batches(sections)
    ensures succeeded == Counts(upload, uploads)
  {
    var i := 0;
    var batch: seq<Record> := [];
    uploads, succeeded := [], [];
    while i < |sections|
      invariant i == |uploads| * BATCH_SIZE + |batch| <= |sections| && |batch| < BATCH_SIZE
      invariant batch == sections[|uploads| * BATCH_SIZE..i]
      invariant uploads == Batches(sections[..|uploads| * BATCH_SIZE])
      invariant succeeded == Counts(upload, uploads)
    {
      batch := batch + [sections[i]];
      i := i + 1;
      FullAt(|uploads|, |batch|);
      if i % BATCH_SIZE == 0 {
        uploads, succeeded := Flush(upload, sections, batch, uploads, succeeded);
        batch := [];
      }
    }
    if |batch| > 0 {
      BatchesLast(sections, |uploads|);
      CountsSnoc(upload, uploads, batch);
      succeeded := succeeded + [CountTrue(upload(batch))];
      uploads := uploads + [batch];
    } else {
      assert sections[..i] == sections;
    }
  }

  /** Uploading a batch once it has filled (lines 193-195). */
  method Flush(upload: seq<Record> -> seq<bool>, sections: seq<Record>, batch: seq<Record>,
               uploads: seq<seq<Record>>, succeeded: seq<nat>)
    returns (uploads': seq<seq<Record>>, succeeded': seq<nat>)
    requires var m := |uploads|; (m + 1) * BATCH_SIZE <= |sections| && batch == sections[m * BATCH_SIZE..(m + 1) * BATCH_SIZE]
    requires uploads == Batches(sections[..|uploads| * BATCH_SIZE]) && succeeded == Counts(upload, uploads)
    ensures |uploads'| == |uploads| + 1
    ensures uploads' == Batches(sections[..|uploads'| * BATCH_SIZE]) && succeeded' == Counts(upload, uploads')
  {
    BatchesSnoc(sections, |uploads|);
    CountsSnoc(upload, uploads, batch);
    uploads' := uploads + [batch];
    succeeded' := succeeded + [CountTrue(upload(batch))];
  }
}
