/**
 * Worked cases of the walk and the deduplicator on small statutes: point
 * identifiers under a clause, article text before the first clause, and a
 * clause number that occurs twice in one article.
 */
module Scenarios {
  import opened Wrappers
  import opened Normalizer
  import opened Provisions
  import opened Segmenter
  import opened Deduplication

  /** A step with no text between the cursor and the match. */
  lemma StepWithoutGap(doc: DocumentId, body: string, st: Pass, m: Match)
    requires CleanText(PySlice(body, st.lastPos, m.start)) == ""
    ensures var ctx := NextContext(st.ctx, m.token);
            Step(doc, body, st, m) == Pass(ctx, st.out + MatchProvisions(doc, ctx, st.out, m.token), m.end)
  {
    assert st.out + [] == st.out;
  }

  /** An article heading followed by a clause, both over the empty body. */
  lemma ArticleThenClause(doc: DocumentId, a: nat, title: string, n: string, x: string)
    ensures var ctx := Context("", "", a, CleanText(title));
            Step(doc, "", Step(doc, "", InitialPass, Match(Article(a, title), 0, 0)), Match(Clause(n, x), 0, 0))
            == Pass(ctx, [Stamp(doc, ctx, Some(n), CleanText(x))], 0)
  {
    var ctx := Context("", "", a, CleanText(title));
    assert CleanText(PySlice("", 0, 0)) == "";
    StepWithoutGap(doc, "", InitialPass, Match(Article(a, title), 0, 0));
    StepWithoutGap(doc, "", Pass(ctx, [], 0), Match(Clause(n, x), 0, 0));
  }

  /** A point after the provisions ps, the last of which is clause n of
      article 1. */
  lemma PointAfterClause(doc: DocumentId, ctx: Context, ps: seq<Provision>, n: string, letter: char, y: string)
    requires ctx.articleNumber == 1 && ps != [] && ps[|ps| - 1].articleNumber == 1
    requires ps[|ps| - 1].id == Some(n) && n != "" && '.' !in n
    ensures Step(doc, "", Pass(ctx, ps, 0), Match(Point(letter, y), 0, 0))
            == Pass(ctx, ps + [Stamp(doc, ctx, Some(n + "." + [letter]), CleanText(y))], 0)
  {
    assert CleanText(PySlice("", 0, 0)) == "";
    StepWithoutGap(doc, "", Pass(ctx, ps, 0), Match(Point(letter, y), 0, 0));
    assert ParentClause(ps, 1) == n;
  }

  /** A second point after a point of the same clause. */
  lemma PointAfterPoint(doc: DocumentId, ctx: Context, c: Provision, pa: Provision, n: string, y: string)
    requires ctx.articleNumber == 1 && c.articleNumber == 1 && c.id == Some(n) && n != "" && '.' !in n
    requires pa.id == Some(n + "." + ['a'])
    ensures Step(doc, "", Pass(ctx, [c, pa], 0), Match(Point('b', y), 0, 0))
            == Pass(ctx, [c, pa, Stamp(doc, ctx, Some(n + "." + ['b']), CleanText(y))], 0)
  {
    assert CleanText(PySlice("", 0, 0)) == "";
    StepWithoutGap(doc, "", Pass(ctx, [c, pa], 0), Match(Point('b', y), 0, 0));
    assert [c, pa][..1] == [c];
    assert (n + "." + ['a'])[|n|] == '.';
    assert !IsClauseOf(pa, 1);
    assert ParentClause([c, pa], 1) == n;
  }

  /** The walk over an article heading and a clause. */
  lemma ArticleClauseWalk(doc: DocumentId, a: nat, title: string, n: string, x: string)
    ensures var ctx := Context("", "", a, CleanText(title));
            Run(doc, "", [Match(Article(a, title), 0, 0), Match(Clause(n, x), 0, 0)])
            == Pass(ctx, [Stamp(doc, ctx, Some(n), CleanText(x))], 0)
  {
    var ms := [Match(Article(a, title), 0, 0), Match(Clause(n, x), 0, 0)];
    assert ms[..0] == [] && ms[..2] == ms;
    RunOneMore(doc, "", ms, 0);
    RunOneMore(doc, "", ms, 1);
    ArticleThenClause(doc, a, title, n, x);
  }

  /** The walk over the first three matches of PointsTakeTheirClause. */
  lemma PointsWalkPrefix(doc: DocumentId, title: string, n: string, x: string, y: string)
    requires n != "" && '.' !in n
    ensures var ctx := Context("", "", 1, CleanText(title));
            Run(doc, "", [Match(Article(1, title), 0, 0), Match(Clause(n, x), 0, 0), Match(Point('a', y), 0, 0)])
            == Pass(ctx, [Stamp(doc, ctx, Some(n), CleanText(x)), Stamp(doc, ctx, Some(n + "." + ['a']), CleanText(y))], 0)
  {
    var m0, m1, m2 := Match(Article(1, title), 0, 0), Match(Clause(n, x), 0, 0), Match(Point('a', y), 0, 0);
    var ms := [m0, m1, m2];
    var ctx := Context("", "", 1, CleanText(title));
    var c := Stamp(doc, ctx, Some(n), CleanText(x));
    assert ms[..2] == [m0, m1];
    ArticleClauseWalk(doc, 1, title, n, x);
    PointAfterClause(doc, ctx, [c], n, 'a', y);
  }

  /** The walk over the four matches of PointsTakeTheirClause. */
  lemma PointsWalk(doc: DocumentId, title: string, n: string, x: string, y: string, z: string)
    requires n != "" && '.' !in n
    ensures var ctx := Context("", "", 1, CleanText(title));
            var c := Stamp(doc, ctx, Some(n), CleanText(x));
            Run(doc, "", [Match(Article(1, title), 0, 0), Match(Clause(n, x), 0, 0),
                          Match(Point('a', y), 0, 0), Match(Point('b', z), 0, 0)])
            == Pass(ctx, [c, Stamp(doc, ctx, Some(n + "." + ['a']), CleanText(y)),
                          Stamp(doc, ctx, Some(n + "." + ['b']), CleanText(z))], 0)
  {
    var m0, m1, m2, m3 := Match(Article(1, title), 0, 0), Match(Clause(n, x), 0, 0),
                          Match(Point('a', y), 0, 0), Match(Point('b', z), 0, 0);
    var ms := [m0, m1, m2, m3];
    var ctx := Context("", "", 1, CleanText(title));
    var c := Stamp(doc, ctx, Some(n), CleanText(x));
    var pa := Stamp(doc, ctx, Some(n + "." + ['a']), CleanText(y));
    assert ms[..3] == [m0, m1, m2];
    PointsWalkPrefix(doc, title, n, x, y);
    PointAfterPoint(doc, ctx, c, pa, n, z);
  }

  /** A clause whose numeral n is non-empty and free of '.', followed by
      points a) and b): the points are "n.a" and "n.b", the second one
      looking past the first to the clause. */
  lemma PointsTakeTheirClause(doc: DocumentId, title: string, n: string, x: string, y: string, z: string)
    requires n != "" && '.' !in n
    ensures var out := Run(doc, "", [Match(Article(1, title), 0, 0), Match(Clause(n, x), 0, 0),
                                     Match(Point('a', y), 0, 0), Match(Point('b', z), 0, 0)]).out;
            |out| == 3 && out[0].id == Some(n) && out[1].id == Some(n + ".a") && out[2].id == Some(n + ".b")
            && out[0].articleNumber == out[1].articleNumber == out[2].articleNumber == 1
  {
    PointsWalk(doc, title, n, x, y, z);
    PointIds(n);
  }

  /** The point identifiers of PointsTakeTheirClause, as string literals. */
  lemma PointIds(n: string)
    ensures n + "." + ['a'] == n + ".a" && n + "." + ['b'] == n + ".b"
  {
    assert "." + ['a'] == ".a" && "." + ['b'] == ".b";
    assert n + "." + ['a'] == n + ("." + ['a']) && n + "." + ['b'] == n + ("." + ['b']);
  }

  /** The walk over an article heading at [0, i). */
  lemma ArticleAtStart(doc: DocumentId, body: string, title: string, i: nat)
    ensures Run(doc, body, [Match(Article(5, title), 0, i)]) == Pass(Context("", "", 5, CleanText(title)), [], i)
  {
    var ms := [Match(Article(5, title), 0, i)];
    assert ms[..0] == [];
    assert CleanText(PySlice(body, 0, 0)) == "";
    StepWithoutGap(doc, body, InitialPass, ms[0]);
  }

  /** A clause at [j, k) after an article heading ending at i. */
  lemma ClauseAfterHeading(doc: DocumentId, body: string, ctx: Context, n: string, text: string, i: nat, j: nat, k: nat)
    requires i <= j <= |body| && ctx.articleNumber > 0
    ensures var gap := CleanText(body[i..j]);
            Step(doc, body, Pass(ctx, [], i), Match(Clause(n, text), j, k)).out
            == (if gap != "" then [Stamp(doc, ctx, None, gap)] else []) + [Stamp(doc, ctx, Some(n), CleanText(text))]
  {
    assert PySlice(body, i, j) == body[i..j];
  }

  /** An article heading "Điều 5. <title>" at [0, i) of the body and a first
      clause at [j, k): the text between them, once cleaned, is article 5's
      provision without identifier (when it is not empty), and the clause
      follows it. */
  lemma ArticleTextBeforeFirstClause(doc: DocumentId, body: string, title: string, n: string, text: string,
                                     i: nat, j: nat, k: nat)
    requires i <= j <= k <= |body|
    ensures var ctx := Context("", "", 5, CleanText(title));
            var gap := CleanText(body[i..j]);
            Run(doc, body, [Match(Article(5, title), 0, i), Match(Clause(n, text), j, k)]).out
            == (if gap != "" then [Stamp(doc, ctx, None, gap)] else []) + [Stamp(doc, ctx, Some(n), CleanText(text))]
  {
    var ms := [Match(Article(5, title), 0, i), Match(Clause(n, text), j, k)];
    assert ms[..1] == [ms[0]] && ms[..2] == ms;
    ArticleAtStart(doc, body, title, i);
    RunOneMore(doc, body, ms, 1);
    ClauseAfterHeading(doc, body, Context("", "", 5, CleanText(title)), n, text, i, j, k);
  }

  /** The walk over an article heading and two clauses with the same
      numeral n. */
  lemma RepeatedClauseWalk(doc: DocumentId, title: string, n: string, x: string, y: string)
    ensures var ctx := Context("", "", 4, CleanText(title));
            Run(doc, "", [Match(Article(4, title), 0, 0), Match(Clause(n, x), 0, 0), Match(Clause(n, y), 0, 0)])
            == Pass(ctx, [Stamp(doc, ctx, Some(n), CleanText(x)), Stamp(doc, ctx, Some(n), CleanText(y))], 0)
  {
    var m0, m1, m2 := Match(Article(4, title), 0, 0), Match(Clause(n, x), 0, 0), Match(Clause(n, y), 0, 0);
    var ms := [m0, m1, m2];
    var ctx := Context("", "", 4, CleanText(title));
    assert ms[..2] == [m0, m1];
    ArticleClauseWalk(doc, 4, title, n, x);
    assert CleanText(PySlice("", 0, 0)) == "";
    StepWithoutGap(doc, "", Pass(ctx, [Stamp(doc, ctx, Some(n), CleanText(x))], 0), m2);
  }

  /** Two clauses with the same numeral in article 4: the walk emits both,
      and the deduplicator keeps only the first. */
  lemma RepeatedClauseKeepsFirst(doc: DocumentId, title: string, n: string, x: string, y: string)
    ensures var out := Run(doc, "", [Match(Article(4, title), 0, 0), Match(Clause(n, x), 0, 0),
                                     Match(Clause(n, y), 0, 0)]).out;
            |out| == 2 && Dedup(out) == [out[0]]
            && out[0].articleNumber == 4 && out[0].id == Some(n) && out[0].content == CleanText(x)
  {
    RepeatedClauseWalk(doc, title, n, x, y);
    var ctx := Context("", "", 4, CleanText(title));
    SameKeyKeepsFirst(Stamp(doc, ctx, Some(n), CleanText(x)), Stamp(doc, ctx, Some(n), CleanText(y)));
  }

  /** Of two provisions with the same key, the deduplicator keeps the first. */
  lemma SameKeyKeepsFirst(a: Provision, b: Provision)
    requires KeyOf(a) == KeyOf(b)
    ensures Dedup([a, b]) == [a]
  {
    assert [a, b][..1] == [a];
    assert [a][..0] == [];
    assert KeysOf([]) == {};
    assert Dedup([a]) == [a];
    assert KeyOf(b) in KeysOf([a]);
  }
}
