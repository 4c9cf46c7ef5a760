/**
 * The pipeline of `Command.handle`
 * (src/chatbot/management/commands/ingest_law_data.py, lines 61-127) from
 * the file content to the batch handed to `bulk_create`: skip everything
 * before the first "Chương I" (line 68), walk the matches of the rest
 * (lines 70-113), and drop duplicate keys (lines 115-124).
 *
 * `re.search` over the content is modelled as a search function; the
 * pattern's `finditer` over the text after the anchor is the input `scan`.
 */
module Ingest {
  import opened Wrappers
  import opened Provisions
  import opened Segmenter
  import opened Deduplication

  /** The literal the header skip searches for: "Chương I". */
  const Anchor: string := "Ch\U{01B0}\U{01A1}ng I"

  /** needle occurs in s at index k. */
  predicate OccursAt(needle: string, s: string, k: nat) {
    k + |needle| <= |s| && s[k..k + |needle|] == needle
  }

  /** `re.search` for a literal from index k on: the first index at which
      needle occurs, or None when it occurs nowhere from k on. */
  function FindFrom(needle: string, s: string, k: nat): (r: Option<nat>)
    requires k <= |s|
    ensures r.Some? ==> k <= r.value && OccursAt(needle, s, r.value)
                        && forall j :: k <= j < r.value ==> !OccursAt(needle, s, j)
    ensures r.None? ==> forall j :: k <= j <= |s| ==> !OccursAt(needle, s, j)
    decreases |s| - k
  {
    if OccursAt(needle, s, k) then Some(k)
    else if k == |s| then None
    else FindFrom(needle, s, k + 1)
  }

  /** Why the run cannot go on. */
  datatype IngestError =
    /** No "Chương I" in the content: `re.search` returns None and the call
        to `.start()` raises, so the transaction rolls back. */
    MissingAnchor

  /** The batch of provisions for document doc that reaches `bulk_create`,
      where scan is what the pattern finds in the content after the anchor. */
  function Pipeline(doc: DocumentId, content: string, scan: seq<Match>): Result<seq<Provision>, IngestError> {
    match FindFrom(Anchor, content, 0)
    case None => Err(MissingAnchor)
    case Some(start) => Ok(Dedup(Run(doc, content[start..], scan).out))
  }

  /** Lines 61-124 of `Command.handle`: the header skip, the walk and the
      deduplication. The run fails exactly when "Chương I" occurs nowhere;
      otherwise the batch has pairwise distinct keys and exactly the keys of
      the walk's output. */
  method IngestContent(doc: DocumentId, content: string, scan: seq<Match>)
    returns (r: Result<seq<Provision>, IngestError>)
    ensures r == Pipeline(doc, content, scan)
    ensures r.Err? <==> forall k :: 0 <= k <= |content| ==> !OccursAt(Anchor, content, k)
    ensures r.Ok? ==> KeysDistinct(r.value)
    ensures r.Ok? ==> FindFrom(Anchor, content, 0).Some?
                        && KeysOf(r.value) == KeysOf(Run(doc, content[FindFrom(Anchor, content, 0).value..], scan).out)
  {
    var found := FindFrom(Anchor, content, 0);
    if found.None? {
      return Err(MissingAnchor);
    }
    var start := found.value;
    var body := content[start..];
    var provisions := Segment(doc, body, scan);
    var unique := Deduplicate(provisions);
    r := Ok(unique);
  }

  /** Everything before the first "Chương I" is skipped: the pipeline gives
      the same batch when the content starts at the anchor. */
  lemma PreambleIgnored(doc: DocumentId, content: string, scan: seq<Match>, start: nat)
    requires FindFrom(Anchor, content, 0) == Some(start)
    ensures Pipeline(doc, content, scan) == Pipeline(doc, content[start..], scan)
  {
    var body := content[start..];
    assert body[0..|Anchor|] == content[start..start + |Anchor|];
    assert OccursAt(Anchor, body, 0);
    assert body[0..] == body;
  }

  /** Nothing produced without the anchor: a content without "Chương I" is
      refused whatever the scan. */
  lemma NoAnchorNoProvisions(doc: DocumentId, content: string, scan: seq<Match>)
    requires forall k :: 0 <= k <= |content| ==> !OccursAt(Anchor, content, k)
    ensures Pipeline(doc, content, scan) == Err(MissingAnchor)
  {
  }
}
