/**
 * The segmentation walk of the ingestion command
 * (src/chatbot/management/commands/ingest_law_data.py, lines 61-113).
 *
 * The regular expression of lines 52-59 is not modelled: the walk receives
 * the sequence of matches `pattern.finditer` yields over the text that
 * follows the anchor, each a tagged token with its span. For every match,
 * in order, the walk
 *   1. cleans the text between the end of the previous match and the start
 *      of this one, and emits it as a provision without identifier when it
 *      is non-empty and an article is open (lines 74-82);
 *   2. updates the four-field context on chapter, section and article
 *      headings (lines 85-92);
 *   3. emits a clause under its number, or a point under
 *      "<clause>.<letter>", the clause being found by a reverse scan of what
 *      was already emitted (lines 93-111);
 *   4. moves the cursor to the end of the match (line 113).
 */
module Segmenter {
  import opened Wrappers
  import opened Normalizer
  import opened Provisions

  /** What a match of the pattern is, with the groups the walk reads. */
  datatype Token =
    | Chapter(marker: string, name: string)   // groups 1 and 2
    | Section(marker: string, name: string)   // groups 3 and 4
    | Article(number: nat, title: string)    // groups 6 (as `int`) and 7
    | Clause(numeral: string, text: string)   // groups 8 and 9
    | Point(letter: char, text: string)      // groups 10 and 11

  /** A match and its span `(start, end)` in the scanned text. */
  datatype Match = Match(token: Token, start: nat, end: nat)

  /** The spans `finditer` produces over a text of length len: inside the
      text, in order and not overlapping. */
  predicate WellFormedScan(ms: seq<Match>, len: nat) {
    (forall i :: 0 <= i < |ms| ==> ms[i].start <= ms[i].end <= len)
    && (forall i, j :: 0 <= i < j < |ms| ==> ms[i].end <= ms[j].start)
  }

  /** Python's slice `s[lo:hi]` for non-negative bounds. */
  function PySlice(s: string, lo: nat, hi: nat): (r: string)
    ensures lo <= hi <= |s| ==> r == s[lo..hi]
    ensures hi <= lo ==> r == ""
  {
    var h := if hi < |s| then hi else |s|;
    if lo < h then s[lo..h] else ""
  }

  // ---------------------------------------------------------------------
  // Context transitions (lines 85-92)
  // ---------------------------------------------------------------------

  /** The context after token t: a chapter sets the chapter and clears the
      section, a section sets only the section, an article sets only the
      number and title, and clauses and points change nothing. */
  function NextContext(ctx: Context, t: Token): (r: Context)
    ensures t.Chapter? ==> r.chapter == CleanText(t.marker + " " + t.name) && r.section == ""
    ensures t.Section? ==> r.section == CleanText(t.marker + " " + t.name)
    ensures t.Article? ==> r.articleNumber == t.number && r.articleTitle == CleanText(t.title)
    ensures !t.Chapter? ==> r.chapter == ctx.chapter
    ensures !t.Chapter? && !t.Section? ==> r.section == ctx.section
    ensures !t.Article? ==> r.articleNumber == ctx.articleNumber && r.articleTitle == ctx.articleTitle
    ensures t.Clause? || t.Point? ==> r == ctx
  {
    match t
    case Chapter(marker, name) => ctx.(chapter := CleanText(marker + " " + name), section := "")
    case Section(marker, name) => ctx.(section := CleanText(marker + " " + name))
    case Article(number, title) => ctx.(articleNumber := number, articleTitle := CleanText(title))
    case Clause(_, _) => ctx
    case Point(_, _) => ctx
  }

  // ---------------------------------------------------------------------
  // Parent clause of a point (lines 100-105)
  // ---------------------------------------------------------------------

  /** The test of line 103: a provision of the given article whose
      identifier is present, non-empty and free of '.'. */
  predicate IsClauseOf(p: Provision, article: nat) {
    p.articleNumber == article && p.id.Some? && p.id.value != "" && '.' !in p.id.value
  }

  /** The clause number a point takes: the identifier of the last provision
      of ps that passes the test, or "unknown" when none does. */
  function ParentClause(ps: seq<Provision>, article: nat): string
    decreases |ps|
  {
    if ps == [] then "unknown"
    else if IsClauseOf(ps[|ps| - 1], article) then ps[|ps| - 1].id.value
    else ParentClause(ps[..|ps| - 1], article)
  }

  /** The parent is the nearest preceding clause of the same article. */
  lemma {:induction false} ParentClauseIsNearest(ps: seq<Provision>, article: nat, k: nat)
    requires k < |ps| && IsClauseOf(ps[k], article)
    requires forall j :: k < j < |ps| ==> !IsClauseOf(ps[j], article)
    ensures ParentClause(ps, article) == ps[k].id.value
    decreases |ps|
  {
    if k < |ps| - 1 {
      var init := ps[..|ps| - 1];
      assert forall j :: k < j < |init| ==> init[j] == ps[j];
      ParentClauseIsNearest(init, article, k);
    }
  }

  /** Without any clause of the same article, the parent is "unknown". */
  lemma {:induction false} ParentClauseFallsBack(ps: seq<Provision>, article: nat)
    requires forall j :: 0 <= j < |ps| ==> !IsClauseOf(ps[j], article)
    ensures ParentClause(ps, article) == "unknown"
    decreases |ps|
  {
    if ps != [] {
      var init := ps[..|ps| - 1];
      assert forall j :: 0 <= j < |init| ==> init[j] == ps[j];
      ParentClauseFallsBack(init, article);
    }
  }

  /** The reverse scan of lines 101-105. */
  method FindParentClause(ps: seq<Provision>, article: nat) returns (clause: string)
    ensures clause == ParentClause(ps, article)
  {
    clause := "unknown";
    var i := |ps|;
    assert ps[..i] == ps;
    while i > 0
      invariant 0 <= i <= |ps|
      invariant ParentClause(ps, article) == ParentClause(ps[..i], article)
    {
      i := i - 1;
      var p := ps[i];
      assert ps[..i + 1][..i] == ps[..i];
      if IsClauseOf(p, article) {
        clause := p.id.value;
        return;
      }
    }
  }

  // ---------------------------------------------------------------------
  // One step of the walk and the whole walk
  // ---------------------------------------------------------------------

  /** The state of the walk: `current_context`, `provisions_to_create` and
      `last_pos`. */
  datatype Pass = Pass(ctx: Context, out: seq<Provision>, lastPos: nat)

  const InitialPass: Pass := Pass(InitialContext, [], 0)

  /** Lines 74-82: the provision the raw gap text yields, if any. */
  function GapProvisions(doc: DocumentId, ctx: Context, raw: string): seq<Provision> {
    var text := CleanText(raw);
    if text != "" && ctx.articleNumber > 0 then [Stamp(doc, ctx, None, text)] else []
  }

  /** Lines 93-111: the provision a clause or point match yields. */
  function MatchProvisions(doc: DocumentId, ctx: Context, sofar: seq<Provision>, t: Token): seq<Provision> {
    match t
    case Clause(numeral, text) => [Stamp(doc, ctx, Some(numeral), CleanText(text))]
    case Point(letter, text) =>
      [Stamp(doc, ctx, Some(ParentClause(sofar, ctx.articleNumber) + "." + [letter]), CleanText(text))]
    case _ => []
  }

  /** One iteration of the loop of lines 70-113 on match m. */
  function Step(doc: DocumentId, body: string, st: Pass, m: Match): Pass {
    var withGap := st.out + GapProvisions(doc, st.ctx, PySlice(body, st.lastPos, m.start));
    var ctx := NextContext(st.ctx, m.token);
    Pass(ctx, withGap + MatchProvisions(doc, ctx, withGap, m.token), m.end)
  }

  /** The state after the walk has consumed the matches ms. */
  function Run(doc: DocumentId, body: string, ms: seq<Match>): Pass
    decreases |ms|
  {
    if ms == [] then InitialPass
    else Step(doc, body, Run(doc, body, ms[..|ms| - 1]), ms[|ms| - 1])
  }

  /** One iteration of the loop of lines 70-113: the gap text, the context
      update, the clause or point, and the cursor. */
  method VisitMatch(doc: DocumentId, body: string, context: Context, provisions: seq<Provision>, lastPos: nat, m: Match)
    returns (context': Context, provisions': seq<Provision>, lastPos': nat)
    ensures Pass(context', provisions', lastPos') == Step(doc, body, Pass(context, provisions, lastPos), m)
  {
    context', provisions' := context, provisions;
    var gap := CleanText(PySlice(body, lastPos, m.start));
    if gap != "" {
      if context'.articleNumber > 0 {
        provisions' := provisions' + [Stamp(doc, context', None, gap)];
      }
    }
    ghost var withGap := provisions';
    assert withGap == provisions + GapProvisions(doc, context, PySlice(body, lastPos, m.start));
    match m.token {
      case Chapter(marker, name) =>
        context' := context'.(chapter := CleanText(marker + " " + name), section := "");
        assert MatchProvisions(doc, context', withGap, m.token) == [];
      case Section(marker, name) =>
        context' := context'.(section := CleanText(marker + " " + name));
        assert MatchProvisions(doc, context', withGap, m.token) == [];
      case Article(number, title) =>
        context' := context'.(articleNumber := number, articleTitle := CleanText(title));
        assert MatchProvisions(doc, context', withGap, m.token) == [];
      case Clause(numeral, text) =>
        provisions' := provisions' + [Stamp(doc, context', Some(numeral), CleanText(text))];
      case Point(letter, text) =>
        var parent := FindParentClause(provisions', context'.articleNumber);
        provisions' := provisions' + [Stamp(doc, context', Some(parent + "." + [letter]), CleanText(text))];
    }
    lastPos' := m.end;
    assert context' == NextContext(context, m.token);
    assert provisions' == withGap + MatchProvisions(doc, context', withGap, m.token);
  }

  /** The walk of lines 61-113 over the matches ms of body. */
  method Segment(doc: DocumentId, body: string, ms: seq<Match>) returns (provisions: seq<Provision>)
    ensures provisions == Run(doc, body, ms).out
  {
    provisions := [];
    var lastPos: nat := 0;
    var context := InitialContext;
    var i := 0;
    while i < |ms|
      invariant 0 <= i <= |ms|
      invariant Run(doc, body, ms[..i]) == Pass(context, provisions, lastPos)
    {
      RunOneMore(doc, body, ms, i);
      context, provisions, lastPos := VisitMatch(doc, body, context, provisions, lastPos, ms[i]);
      i := i + 1;
    }
    assert ms[..|ms|] == ms;
  }

  /** Consuming one more match is one more step. */
  lemma RunOneMore(doc: DocumentId, body: string, ms: seq<Match>, i: nat)
    requires i < |ms|
    ensures Run(doc, body, ms[..i + 1]) == Step(doc, body, Run(doc, body, ms[..i]), ms[i])
  {
    assert ms[..i + 1][..i] == ms[..i];
  }

  // ---------------------------------------------------------------------
  // What one step emits
  // ---------------------------------------------------------------------

  /** A step appends, after what was there: the gap provision (identifier
      None, the cleaned gap, the context BEFORE the match) exactly when the
      cleaned gap is non-empty and an article is open; then, for a clause,
      one provision under the clause number and, for a point, one under
      "<parent>.<letter>"; both under the unchanged context. The gap
      provision does not affect the parent lookup. The cursor moves to the
      end of the match. */
  lemma StepEmits(doc: DocumentId, body: string, st: Pass, m: Match)
    ensures var next := Step(doc, body, st, m);
            var gap := CleanText(PySlice(body, st.lastPos, m.start));
            var g := if gap != "" && st.ctx.articleNumber > 0 then 1 else 0;
            var e := if m.token.Clause? || m.token.Point? then 1 else 0;
            |next.out| == |st.out| + g + e
            && next.out[..|st.out|] == st.out
            && (g == 1 ==> next.out[|st.out|] == Stamp(doc, st.ctx, None, gap))
            && (m.token.Clause? ==>
                  next.out[|next.out| - 1] == Stamp(doc, st.ctx, Some(m.token.numeral), CleanText(m.token.text)))
            && (m.token.Point? ==>
                  next.out[|next.out| - 1] ==
                  Stamp(doc, st.ctx, Some(ParentClause(st.out, st.ctx.articleNumber) + "." + [m.token.letter]),
                        CleanText(m.token.text)))
            && next.ctx == NextContext(st.ctx, m.token)
            && next.lastPos == m.end
  {
    var gp := GapProvisions(doc, st.ctx, PySlice(body, st.lastPos, m.start));
    var withGap := st.out + gp;
    if gp != [] {
      assert !IsClauseOf(withGap[|withGap| - 1], st.ctx.articleNumber);
      assert withGap[..|withGap| - 1] == st.out;
    } else {
      assert withGap == st.out;
    }
    assert ParentClause(withGap, st.ctx.articleNumber) == ParentClause(st.out, st.ctx.articleNumber);
  }

  // ---------------------------------------------------------------------
  // The context in force, defined by the last heading of each kind
  // ---------------------------------------------------------------------

  /** The cleaned heading of the last chapter match, or "". */
  function ChapterInForce(ms: seq<Match>): string
    decreases |ms|
  {
    if ms == [] then ""
    else match ms[|ms| - 1].token
      case Chapter(marker, name) => CleanText(marker + " " + name)
      case _ => ChapterInForce(ms[..|ms| - 1])
  }

  /** The cleaned heading of the last section match, unless a chapter match
      came after it; "" otherwise. */
  function SectionInForce(ms: seq<Match>): string
    decreases |ms|
  {
    if ms == [] then ""
    else match ms[|ms| - 1].token
      case Section(marker, name) => CleanText(marker + " " + name)
      case Chapter(_, _) => ""
      case _ => SectionInForce(ms[..|ms| - 1])
  }

  /** The number of the last article match, or 0. */
  function ArticleNumberInForce(ms: seq<Match>): nat
    decreases |ms|
  {
    if ms == [] then 0
    else match ms[|ms| - 1].token
      case Article(number, _) => number
      case _ => ArticleNumberInForce(ms[..|ms| - 1])
  }

  /** The cleaned title of the last article match, or "". */
  function ArticleTitleInForce(ms: seq<Match>): string
    decreases |ms|
  {
    if ms == [] then ""
    else match ms[|ms| - 1].token
      case Article(_, title) => CleanText(title)
      case _ => ArticleTitleInForce(ms[..|ms| - 1])
  }

  function ContextInForce(ms: seq<Match>): Context {
    Context(ChapterInForce(ms), SectionInForce(ms), ArticleNumberInForce(ms), ArticleTitleInForce(ms))
  }

  /** After any prefix of the scan, the tracked context is the context in
      force: the last chapter, the last section not followed by a chapter,
      the last article. */
  lemma {:induction false} RunTracksContext(doc: DocumentId, body: string, ms: seq<Match>)
    ensures Run(doc, body, ms).ctx == ContextInForce(ms)
    decreases |ms|
  {
    if ms != [] {
      RunTracksContext(doc, body, ms[..|ms| - 1]);
    }
  }

  /** A section label does not leak into a later chapter: after a chapter
      match with no section match after it, the section reads "". */
  lemma {:induction false} SectionClearedByChapter(doc: DocumentId, body: string, ms: seq<Match>, k: nat)
    requires k < |ms| && ms[k].token.Chapter?
    requires forall j :: k < j < |ms| ==> !ms[j].token.Section?
    ensures Run(doc, body, ms).ctx.section == ""
  {
    RunTracksContext(doc, body, ms);
    SectionInForceAfterChapter(ms, k);
  }

  lemma {:induction false} SectionInForceAfterChapter(ms: seq<Match>, k: nat)
    requires k < |ms| && ms[k].token.Chapter?
    requires forall j :: k < j < |ms| ==> !ms[j].token.Section?
    ensures SectionInForce(ms) == ""
    decreases |ms|
  {
    if k < |ms| - 1 && !ms[|ms| - 1].token.Chapter? {
      var init := ms[..|ms| - 1];
      assert forall j :: k < j < |init| ==> init[j] == ms[j];
      SectionInForceAfterChapter(init, k);
    }
  }

  // ---------------------------------------------------------------------
  // Order, the cursor, and the text the walk never reads
  // ---------------------------------------------------------------------

  /** Records are appended in match order: the output after a prefix of the
      scan is a prefix of the output after the whole scan. */
  lemma {:induction false} RunExtends(doc: DocumentId, body: string, ms: seq<Match>, i: nat)
    requires i <= |ms|
    ensures var before, after := Run(doc, body, ms[..i]).out, Run(doc, body, ms).out;
            |before| <= |after| && after[..|before|] == before
    decreases |ms|
  {
    if i < |ms| {
      var init := ms[..|ms| - 1];
      assert init[..i] == ms[..i];
      RunExtends(doc, body, init, i);
      StepEmits(doc, body, Run(doc, body, init), ms[|ms| - 1]);
    } else {
      assert ms[..i] == ms;
    }
  }

  /** The provisions that match k contributes lie, in the final output,
      after those of the earlier matches and carry the context in force
      before match k: no provision refers to an article scanned after it. */
  lemma ProvisionsOfMatch(doc: DocumentId, body: string, ms: seq<Match>, k: nat)
    requires k < |ms|
    ensures var lo, hi := |Run(doc, body, ms[..k]).out|, |Run(doc, body, ms[..k + 1]).out|;
            var out := Run(doc, body, ms).out;
            lo <= hi <= |out|
            && forall i :: lo <= i < hi ==> ContextOf(out[i]) == ContextInForce(ms[..k])
  {
    var st := Run(doc, body, ms[..k]);
    RunOneMore(doc, body, ms, k);
    var next := Run(doc, body, ms[..k + 1]);
    StepStampsContext(doc, body, st, ms[k]);
    RunTracksContext(doc, body, ms[..k]);
    RunExtends(doc, body, ms, k + 1);
    var out := Run(doc, body, ms).out;
    assert forall i :: |st.out| <= i < |next.out| ==> out[i] == next.out[i];
  }

  /** What one step appends is stamped with the context before the step. */
  lemma StepStampsContext(doc: DocumentId, body: string, st: Pass, m: Match)
    ensures var next := Step(doc, body, st, m);
            |st.out| <= |next.out|
            && forall i :: |st.out| <= i < |next.out| ==> ContextOf(next.out[i]) == st.ctx
  {
    var gp := GapProvisions(doc, st.ctx, PySlice(body, st.lastPos, m.start));
    var withGap := st.out + gp;
    var ctx := NextContext(st.ctx, m.token);
    var mp := MatchProvisions(doc, ctx, withGap, m.token);
    assert m.token.Clause? || m.token.Point? ==> ctx == st.ctx;
    assert forall i :: 0 <= i < |gp| ==> ContextOf(gp[i]) == st.ctx;
    assert forall i :: 0 <= i < |mp| ==> ContextOf(mp[i]) == st.ctx;
  }

  /** With a well-formed scan the cursor ends at the end of the last match
      and never moves back. */
  lemma CursorAdvances(doc: DocumentId, body: string, ms: seq<Match>, i: nat)
    requires WellFormedScan(ms, |body|)
    requires i <= |ms|
    ensures Run(doc, body, ms).lastPos == (if ms == [] then 0 else ms[|ms| - 1].end)
    ensures Run(doc, body, ms[..i]).lastPos <= Run(doc, body, ms).lastPos
  {
    if i == |ms| {
      assert ms[..i] == ms;
    } else if i > 0 {
      var pre := ms[..i];
      assert pre[..i - 1] == ms[..i - 1];
      assert Run(doc, body, pre).lastPos == ms[i - 1].end;
    }
  }

  /** Text after the final match is never read: appending any text to the
      end of the body leaves the walk unchanged. */
  lemma {:induction false} TrailingTextIgnored(doc: DocumentId, body: string, extra: string, ms: seq<Match>)
    requires WellFormedScan(ms, |body|)
    ensures Run(doc, body + extra, ms) == Run(doc, body, ms)
    decreases |ms|
  {
    if ms != [] {
      var init := ms[..|ms| - 1];
      assert WellFormedScan(init, |body|);
      TrailingTextIgnored(doc, body, extra, init);
      var st := Run(doc, body, init);
      var m := ms[|ms| - 1];
      assert PySlice(body + extra, st.lastPos, m.start) == PySlice(body, st.lastPos, m.start) by {
        if st.lastPos < m.start {
          assert (body + extra)[st.lastPos..m.start] == body[st.lastPos..m.start];
        }
      }
    }
  }
}
