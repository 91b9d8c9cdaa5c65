/** The deck: slides as the lists of their tables, and the three slides
    the generator fills.  Slide 3 takes the first three projects and a
    sample of learnings; slides 4 and 5 are paginated.  The first page of
    a paginated slide fills the template slide itself; every later page
    fills a duplicate of that already-filled slide, appended at the end
    of the deck.
 */
module Report {
  import opened Results
  import opened Text
  import opened Groups
  import opened Paging
  import opened Tables
  import opened Aggregation

  /** The tables of a slide, in shape order. */
  type Slide = seq<Table>
  type Deck = seq<Slide>

  /** What one page writes into the tables of its slide. */
  datatype Section =
    | Overview(projects: Grouping, learnings: seq<string>)
    | Work(projects: Grouping, teach: seq<string>)
    | Plan(projects: Grouping)

  /** The header tests: the lower-cased text contains `word`. */
  predicate Mentions(header: string, word: string) {
    Contains(AsciiLower(header), word)
  }

  /** Slide 3, one table: if the last header cell starts with "learn",
      write the sampled learnings down the last column; then, if the
      first header cell mentions "project", write the first projects. */
  function FillOverviewTable(t: Table, projects: Grouping, learnings: seq<string>): (r: Result<Table>)
    ensures |t| == 0 ==> r == IndexError
  {
    if |t| == 0 then IndexError
    else
      var last := |t[0]| - 1;
      match CellText(t, 0, last)
      case IndexError => IndexError
      case Ok(h) =>
        var learned := if StartsWith(AsciiLower(h), "learn") then FillColumn(t, last as nat, learnings) else Ok(t);
        match learned
        case IndexError => IndexError
        case Ok(u) =>
          match CellText(u, 0, 0)
          case IndexError => IndexError
          case Ok(h0) => if Mentions(h0, "project") then FillProjects(u, projects) else Ok(u)
  }

  /** On slide 3 the learn fill never writes the header row, so the
      project test sees the template's own header: a table headed both
      "learn..." (last cell) and "...project..." (first cell) gets both
      fills, and the learn fill's rows are those the projects then use. */
  lemma OverviewTableSpec(t: Table, projects: Grouping, learnings: seq<string>)
    requires |t| > 0 && |t[0]| > 0
    ensures var learn := StartsWith(AsciiLower(t[0][|t[0]| - 1]), "learn");
            var u := if learn then FillColumn(t, |t[0]| - 1, learnings) else Ok(t);
            FillOverviewTable(t, projects, learnings)
              == if u.IndexError? then IndexError
                 else if Mentions(t[0][0], "project") then FillProjects(u.value, projects)
                 else u
  {
    var last := |t[0]| - 1;
    assert CellText(t, 0, last) == Ok(t[0][last]);
    if StartsWith(AsciiLower(t[0][last]), "learn") {
      var f := FillColumn(t, last, learnings);
      if f.Ok? {
        var u := f.value;
        assert 0 < |u| && u[0] == t[0] by {
          FillKeepsHeader(t, last, learnings, []);
        }
        assert CellText(u, 0, 0) == Ok(t[0][0]);
      }
    } else {
      assert CellText(t, 0, 0) == Ok(t[0][0]);
    }
  }

  /** Slide 4, one table: the project table takes this page's projects,
      else a table mentioning "teach" takes this page's teach items;
      other tables are left alone. */
  function FillWorkTable(t: Table, projects: Grouping, teach: seq<string>): (r: Result<Table>)
    ensures (|t| == 0 || |t[0]| == 0) ==> r == IndexError
  {
    match CellText(t, 0, 0)
    case IndexError => IndexError
    case Ok(h) =>
      if Mentions(h, "project") then FillProjects(t, projects)
      else if Mentions(h, "teach") then FillColumn(t, 0, teach)
      else Ok(t)
  }

  function FillTable(sec: Section, t: Table): Result<Table>
  {
    match sec
    case Overview(ps, ls) => FillOverviewTable(t, ps, ls)
    case Work(ps, teach) => FillWorkTable(t, ps, teach)
    case Plan(ps) => FillProjects(t, ps)
  }

  /** Every table of the slide in order through `fill`; the first
      failure ends the run. */
  function EachTable(fill: Table -> Result<Table>, s: Slide): Result<Slide>
  {
    if |s| == 0 then Ok([])
    else
      var n := |s| - 1;
      match EachTable(fill, s[..n])
      case IndexError => IndexError
      case Ok(prev) =>
        match fill(s[n])
        case IndexError => IndexError
        case Ok(t) => Ok(prev + [t])
  }

  /** A slide fills when each of its tables does, and then the filled
      slide holds the filled tables in the same order. */
  lemma {:induction false} EachTableSpec(fill: Table -> Result<Table>, s: Slide)
    ensures EachTable(fill, s).Ok? <==> forall i :: 0 <= i < |s| ==> fill(s[i]).Ok?
    ensures EachTable(fill, s).Ok? ==>
              |EachTable(fill, s).value| == |s|
              && forall i :: 0 <= i < |s| ==> EachTable(fill, s).value[i] == fill(s[i]).value
  {
    if |s| > 0 {
      var n := |s| - 1;
      EachTableSpec(fill, s[..n]);
      assert forall i :: 0 <= i < n ==> s[..n][i] == s[i];
      var prev := EachTable(fill, s[..n]);
      if prev.Ok? && fill(s[n]).Ok? {
        var r := EachTable(fill, s).value;
        assert r == prev.value + [fill(s[n]).value];
        forall i | 0 <= i < |s| ensures r[i] == fill(s[i]).value {
          if i < n {
            assert r[i] == prev.value[i];
          }
        }
      }
    }
  }

  function FillSlide(sec: Section, s: Slide): Result<Slide>
  {
    EachTable(t => FillTable(sec, t), s)
  }

  lemma FillSlideSpec(sec: Section, s: Slide)
    ensures FillSlide(sec, s).Ok? <==> forall i :: 0 <= i < |s| ==> FillTable(sec, s[i]).Ok?
    ensures FillSlide(sec, s).Ok? ==>
              |FillSlide(sec, s).value| == |s|
              && forall i :: 0 <= i < |s| ==> FillSlide(sec, s).value[i] == FillTable(sec, s[i]).value
  {
    EachTableSpec(t => FillTable(sec, t), s);
  }

  /** The page loop of slides 4 and 5 over the sections of its pages:
      page 0 fills the slide at `base` in place, each later page fills a
      duplicate of the slide at `base` as it then is, added at the end. */
  function Paginate<S>(deck: Deck, base: nat, secs: seq<S>, fill: (S, Slide) -> Result<Slide>): (r: Result<Deck>)
    requires base < |deck|
    ensures r.Ok? ==> |r.value| >= |deck|
  {
    if |secs| == 0 then Ok(deck)
    else
      var n := |secs| - 1;
      match Paginate(deck, base, secs[..n], fill)
      case IndexError => IndexError
      case Ok(d) =>
        match fill(secs[n], d[base])
        case IndexError => IndexError
        case Ok(s) => if n == 0 then Ok(d[base := s]) else Ok(d + [s])
  }

  /** Pagination leaves the deck's other slides alone, puts the first
      page where the template was, and appends one slide per later page,
      each filled starting from the FIRST page's filled slide; it fails
      exactly when one of those fills fails. */
  lemma {:induction false} PaginateShape<S>(deck: Deck, base: nat, secs: seq<S>, fill: (S, Slide) -> Result<Slide>)
    requires base < |deck| && |secs| > 0
    ensures Paginate(deck, base, secs, fill).Ok? <==>
              fill(secs[0], deck[base]).Ok?
              && forall p :: 1 <= p < |secs| ==> fill(secs[p], fill(secs[0], deck[base]).value).Ok?
    ensures Paginate(deck, base, secs, fill).Ok? ==>
              var r := Paginate(deck, base, secs, fill).value;
              var first := fill(secs[0], deck[base]).value;
              && |r| == |deck| + |secs| - 1
              && r[base] == first
              && (forall i :: 0 <= i < |deck| && i != base ==> r[i] == deck[i])
              && (forall p :: 1 <= p < |secs| ==> r[|deck| + p - 1] == fill(secs[p], first).value)
  {
    var n := |secs| - 1;
    if n > 0 {
      PaginateShape(deck, base, secs[..n], fill);
      assert forall p :: 0 <= p < n ==> secs[..n][p] == secs[p];
      if Paginate(deck, base, secs, fill).Ok? {
        var d := Paginate(deck, base, secs[..n], fill).value;
        var first := fill(secs[0], deck[base]).value;
        var r := Paginate(deck, base, secs, fill).value;
        assert r == d + [fill(secs[n], first).value];
        forall p | 1 <= p < |secs|
          ensures r[|deck| + p - 1] == fill(secs[p], first).value
        {
          if p < n {
            assert r[|deck| + p - 1] == d[|deck| + p - 1];
          }
        }
      }
    }
  }

  /** What a page loop leaves where its template was: the first page's
      fill, or the template itself when there are no pages. */
  function FirstFill<S>(secs: seq<S>, s: Slide, fill: (S, Slide) -> Result<Slide>): Result<Slide>
  {
    if |secs| == 0 then Ok(s) else fill(secs[0], s)
  }

  /** A page loop that ran through: one slide more per page after the
      first, the template replaced by the first page's fill, every later
      page a fill of that slide at its place at the end, and nothing else
      changed. */
  lemma PaginateResult<S>(deck: Deck, base: nat, secs: seq<S>, fill: (S, Slide) -> Result<Slide>)
    requires base < |deck| && Paginate(deck, base, secs, fill).Ok?
    ensures var r := Paginate(deck, base, secs, fill).value;
            && |r| == |deck| + Duplicates(|secs|)
            && FirstFill(secs, deck[base], fill).Ok? && r[base] == FirstFill(secs, deck[base], fill).value
            && (forall i :: 0 <= i < |deck| && i != base ==> r[i] == deck[i])
            && (forall p :: 1 <= p < |secs| ==>
                  fill(secs[p], r[base]).Ok? && r[|deck| + p - 1] == fill(secs[p], r[base]).value)
  {
    if |secs| > 0 {
      PaginateShape(deck, base, secs, fill);
    }
  }

  /** The sections of the pages of slide 4: page `p` takes the `p`-th
      three projects and the teach items at ten times its project offset. */
  function WorkSections(rest: Grouping, teach: seq<string>): (secs: seq<Section>)
    ensures |secs| == |Pages(rest, ChunkSize)|
  {
    var ps := Pages(rest, ChunkSize);
    seq(|ps|, p requires 0 <= p < |ps| => Work(ps[p], TeachSlice(teach, Offset(p, ChunkSize))))
  }

  /** The sections of the pages of slide 5: three plans each. */
  function PlanSections(plans: Grouping): (secs: seq<Section>)
    ensures |secs| == |Pages(plans, ChunkSize)|
  {
    var ps := Pages(plans, ChunkSize);
    seq(|ps|, p requires 0 <= p < |ps| => Plan(ps[p]))
  }

  /** Page `p` of slide 4 exists exactly when `3p` is a value of
      `range(0, len(rest), 3)`, and writes `rest[3p:3p + 3]` with
      `teach[30p:30p + 10]`. */
  lemma WorkPage(rest: Grouping, teach: seq<string>, p: nat)
    ensures p < |WorkSections(rest, teach)| <==> 3 * p < |rest|
    ensures p < |WorkSections(rest, teach)| ==>
              WorkSections(rest, teach)[p] == Work(PySlice(rest, 3 * p, 3 * p + 3), PySlice(teach, 30 * p, 30 * p + 10))
  {
    NumPagesSpec(|rest|, ChunkSize, p);
    OffsetIsProduct(p, ChunkSize);
    TeachPage(teach, p);
  }

  /** Page `p` of slide 5 exists exactly when `3p` is a value of
      `range(0, len(plans), 3)`, and writes `plans[3p:3p + 3]`. */
  lemma PlanPage(plans: Grouping, p: nat)
    ensures p < |PlanSections(plans)| <==> 3 * p < |plans|
    ensures p < |PlanSections(plans)| ==> PlanSections(plans)[p] == Plan(PySlice(plans, 3 * p, 3 * p + 3))
  {
    NumPagesSpec(|plans|, ChunkSize, p);
    OffsetIsProduct(p, ChunkSize);
  }

  /** A later page starts from the first page's filled project table, so
      when it has no more projects than the first page it keeps that
      table's row count, and the rows past its own projects still show
      the first page's projects and statuses. */
  lemma StaleProjectRows(t: Table, first: Grouping, later: Grouping)
    requires |t| > 0
    requires FillProjects(t, first).Ok?
    requires FillProjects(FillProjects(t, first).value, later).Ok?
    ensures |later| <= |first| ==>
              |FillProjects(FillProjects(t, first).value, later).value| == |FillProjects(t, first).value|
    ensures var v := FillProjects(FillProjects(t, first).value, later).value;
            forall i :: |later| < i <= |first| ==>
              i < |v| && 2 <= |v[i]| && v[i][0] == first[i - 1].0 && v[i][1] == StatusCell(first[i - 1].1)
  {
    FillProjectsSpec(t, first);
    var u := FillProjects(t, first).value;
    FillProjectsSpec(u, later);
    var v := FillProjects(u, later).value;
    forall i | |later| < i <= |first|
      ensures i < |v| && 2 <= |v[i]| && v[i][0] == first[i - 1].0 && v[i][1] == StatusCell(first[i - 1].1)
    {
      assert GrownRow(u, i) == u[i];
      assert 2 <= |GrownRow(t, i)|;
    }
  }

  /** A page of slide 4 whose teach slice lies past the end of the list
      leaves the teach table as it was; on a duplicate that is the first
      page's teach items, shown again. */
  lemma TeachTableRepeats(t: Table, rest: Grouping, teach: seq<string>, p: nat)
    requires |t| > 0 && |t[0]| > 0
    requires !Mentions(t[0][0], "project") && Mentions(t[0][0], "teach")
    requires p < |WorkSections(rest, teach)| && |teach| <= 30 * p
    ensures FillTable(WorkSections(rest, teach)[p], t) == Ok(t)
  {
    WorkPage(rest, teach, p);
    var sec := WorkSections(rest, teach)[p];
    assert sec.teach == [];
    FillColumnSpec(t, 0, []);
    var r := FillColumn(t, 0, []).value;
    assert |r| == |t|;
    forall i | 0 <= i < |t| ensures r[i] == t[i] {
      assert |r[i]| == |t[i]|;
      forall c: nat | c < |t[i]| ensures r[i][c] == t[i][c] {
        assert GrownRow(t, i) == t[i];
      }
    }
    assert r == t;
  }

  /** The first three projects with the sampled learnings (slide 3). */
  function OverviewSection(c: Collections, learnSample: seq<string>): Section
  {
    Overview(PySlice(c.work, 0, FirstSlideProjects), learnSample)
  }

  /** The pages of slide 4: the projects after the first three. */
  function ProjectPages(c: Collections): seq<Section>
  {
    WorkSections(PySlice(c.work, FirstSlideProjects, |c.work|), c.support)
  }

  /** The pages of slide 5. */
  function PlanPages(c: Collections): seq<Section>
  {
    PlanSections(c.plans)
  }

  /** Slides a page loop adds: one per page after the first. */
  function Duplicates(pages: nat): nat
  {
    if pages == 0 then 0 else pages - 1
  }

  /** Slides 3 and 4 of the generator: slide 3 filled in place with the
      overview, then the page loop of slide 4. */
  function WorkStage(deck: Deck, overview: Section, ws: seq<Section>, fill: (Section, Slide) -> Result<Slide>): Result<Deck>
  {
    if |deck| < 4 then IndexError
    else
      match fill(overview, deck[2])
      case IndexError => IndexError
      case Ok(s3) => Paginate(deck[2 := s3], 3, ws, fill)
  }

  /** The generator's slide work for any way `fill` of filling a slide
      with a section.  Each `prs.slides[i]` is looked up in the deck as it
      is at that moment, so slide 5's template is whatever sits at index 4
      after slide 4's pages were added. */
  function Generate(deck: Deck, overview: Section, ws: seq<Section>, ps: seq<Section>,
                    fill: (Section, Slide) -> Result<Slide>): Result<Deck>
  {
    match WorkStage(deck, overview, ws, fill)
    case IndexError => IndexError
    case Ok(d2) =>
      if |d2| < 5 then IndexError
      else
        match Paginate(d2, 4, ps, fill)
        case IndexError => IndexError
        case Ok(d3) => if |d3| < 6 then IndexError else Ok(d3)
  }

  /** The generator from the loaded template to the deck it saves, given
      the collected notes and the learnings `random.sample` picks: up to
      eight of them, drawn from different positions of the list. */
  function BuildReport(deck: Deck, c: Collections, learnSample: seq<string>): Result<Deck>
    requires |learnSample| == Min(8, |c.learned|) && multiset(learnSample) <= multiset(c.learned)
  {
    Generate(deck, OverviewSection(c, learnSample), ProjectPages(c), PlanPages(c), FillSlide)
  }

  /** Slide 4's loop has no page at all exactly when there are at most
      three projects; its template, teach table included, is then left
      as it was. */
  lemma NoProjectPages(c: Collections)
    ensures |ProjectPages(c)| == 0 <==> |c.work| <= FirstSlideProjects
  {
    PySliceAt(c.work, FirstSlideProjects, |c.work|);
    WorkPage(PySlice(c.work, FirstSlideProjects, |c.work|), c.support, 0);
  }

  /** What the saved deck holds, for the pages `ws` of slide 4 and `ps` of
      slide 5 (`BuildReport` takes `fill` to be `FillSlide`):
      - the tables of the first two slides and of everything past slide 5
        as in the template, and slide 3 filled once;
      - slide 4 filled with its first page, or untouched when it has none;
      - each later page of slide 4 a fill of that filled slide 4, at the
        end of the deck;
      - at index 4 the first plan page filled into whatever sits there
        once slide 4's pages are added: the template's slide 5, or, in a
        four-slide template, slide 4's second page;
      - each later plan page a fill of that slide, after slide 4's pages. */
  lemma ReportShape(deck: Deck, overview: Section, ws: seq<Section>, ps: seq<Section>,
                    fill: (Section, Slide) -> Result<Slide>)
    requires Generate(deck, overview, ws, ps, fill).Ok?
    ensures var r := Generate(deck, overview, ws, ps, fill).value;
            var n := |deck| + Duplicates(|ws|);
            && |deck| >= 4
            && |r| == n + Duplicates(|ps|)
            && r[0] == deck[0] && r[1] == deck[1]
            && fill(overview, deck[2]).Ok? && r[2] == fill(overview, deck[2]).value
            && FirstFill(ws, deck[3], fill).Ok? && r[3] == FirstFill(ws, deck[3], fill).value
            && (forall p :: 1 <= p < |ws| && |deck| + p - 1 != 4 ==>
                  fill(ws[p], r[3]).Ok? && r[|deck| + p - 1] == fill(ws[p], r[3]).value)
            && (|deck| == 4 ==> |ws| >= 2 && fill(ws[1], r[3]).Ok?)
            && (var t5 := if |deck| >= 5 then deck[4] else fill(ws[1], r[3]).value;
                FirstFill(ps, t5, fill).Ok? && r[4] == FirstFill(ps, t5, fill).value)
            && (forall i :: 5 <= i < |deck| ==> r[i] == deck[i])
            && (forall p :: 1 <= p < |ps| ==>
                  fill(ps[p], r[4]).Ok? && r[n + p - 1] == fill(ps[p], r[4]).value)
  {
    var s3 := fill(overview, deck[2]).value;
    PaginateResult(deck[2 := s3], 3, ws, fill);
    var d2 := WorkStage(deck, overview, ws, fill).value;
    PaginateResult(d2, 4, ps, fill);
  }
}
