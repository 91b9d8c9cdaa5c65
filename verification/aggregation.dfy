/** The record aggregation loop of ok.py: six text columns per note row
    become two insertion-ordered groupings (work done, plans) and four
    flat lists (learnings, support needs, insights, blog links).
 */
module Aggregation {
  import opened Results
  import opened Text
  import opened Groups

  /** One row of the notes query, in column order. */
  datatype Record = Record(
    work: string,
    learning: string,
    plan: string,
    support: string,
    insight: string,
    blog: string)

  /** The six columns of the query, by position. */
  datatype Column = WorkColumn | LearningColumn | PlanColumn | SupportColumn | InsightColumn | BlogColumn

  function Field(r: Record, col: Column): string
  {
    match col
    case WorkColumn => r.work
    case LearningColumn => r.learning
    case PlanColumn => r.plan
    case SupportColumn => r.support
    case InsightColumn => r.insight
    case BlogColumn => r.blog
  }

  /** One column of every record, in record order. */
  function Fields(records: seq<Record>, col: Column): (r: seq<string>)
    ensures |r| == |records|
  {
    if |records| == 0 then []
    else
      var n := |records| - 1;
      Fields(records[..n], col) + [Field(records[n], col)]
  }

  lemma FieldsOneMore(records: seq<Record>, r: Record, col: Column)
    ensures Fields(records + [r], col) == Fields(records, col) + [Field(r, col)]
  {
    assert (records + [r])[..|records|] == records;
  }

  /** What the loop leaves behind in its six accumulators. */
  datatype Collections = Collections(
    work: Grouping,
    learned: seq<string>,
    plans: Grouping,
    support: seq<string>,
    insights: seq<string>,
    blogs: seq<string>)


  /** Stripping only removes characters, so it cannot introduce a colon. */
  lemma StripNoColon(s: string)
    requires ':' !in s
    ensures ':' !in Strip(s)
  {
    StripSpec(s);
    var a :| StripsTo(s, a, Strip(s));
    assert Strip(s) == s[a..a + |Strip(s)|];
  }

  /** A work or plan entry: after trimming, if it holds a colon, the
      trimmed text before the first colon (the project id) and the
      trimmed text after it (the status). */
  function Entry(field: string): (r: Option<Pair>)
    ensures r.None? <==> ':' !in Strip(field)
    ensures r.Some? ==> Trimmed(r.value.0) && Trimmed(r.value.1) && ':' !in r.value.0
  {
    match SplitOnce(Strip(field), ':')
    case None => None
    case Some((id, status)) =>
      StripNoColon(id);
      StripTrimmed(id);
      StripTrimmed(status);
      Some((Strip(id), Strip(status)))
  }

  /** The project id and status `Entry` reads are the trimmed halves
      around the first colon of the trimmed field. */
  lemma EntrySplitsAtFirstColon(field: string, id: string, status: string)
    requires Strip(field) == id + ":" + status && ':' !in id
    ensures Entry(field) == Some((Strip(id), Strip(status)))
  {
    SplitOnceUnique(Strip(field), ':', id, status);
  }

  /** The (project id, status) pairs of the fields that hold a colon, in
      field order. */
  function EntryPairs(fields: seq<string>): (r: seq<Pair>)
    ensures |r| <= |fields|
  {
    if |fields| == 0 then []
    else
      var n := |fields| - 1;
      EntryPairs(fields[..n]) + (match Entry(fields[n]) case None => [] case Some(p) => [p])
  }

  /** `x` is the trimmed form of one of the fields. */
  predicate TrimmedField(fields: seq<string>, x: string) {
    exists i :: 0 <= i < |fields| && Strip(fields[i]) == x
  }

  lemma TrimmedFieldOneMore(fields: seq<string>, x: string)
    requires |fields| > 0
    ensures TrimmedField(fields, x) <==> TrimmedField(fields[..|fields| - 1], x) || Strip(fields[|fields| - 1]) == x
  {
    var n := |fields| - 1;
    var pre := fields[..n];
    if TrimmedField(fields, x) {
      var i :| 0 <= i < |fields| && Strip(fields[i]) == x;
      if i < n { assert pre[i] == fields[i]; }
    }
    if TrimmedField(pre, x) {
      var i :| 0 <= i < n && Strip(pre[i]) == x;
      assert pre[i] == fields[i];
    }
  }

  /** The trimmed fields that are not empty, in order. */
  function NonEmpty(fields: seq<string>): (r: seq<string>)
    ensures |r| <= |fields|
    ensures forall i :: 0 <= i < |r| ==> r[i] != []
  {
    if |fields| == 0 then []
    else
      var n := |fields| - 1;
      var e := Strip(fields[n]);
      NonEmpty(fields[..n]) + (if e != [] then [e] else [])
  }

  /** The trimmed fields that start with "http", in order. */
  function Links(fields: seq<string>): (r: seq<string>)
    ensures |r| <= |fields|
    ensures forall i :: 0 <= i < |r| ==> StartsWith(r[i], "http")
  {
    if |fields| == 0 then []
    else
      var n := |fields| - 1;
      var e := Strip(fields[n]);
      Links(fields[..n]) + (if StartsWith(e, "http") then [e] else [])
  }

  /** A string is kept by `NonEmpty` exactly when it is the non-empty
      trimmed form of one of the fields. */
  lemma {:induction false} NonEmptyMembers(fields: seq<string>, x: string)
    ensures x in NonEmpty(fields) <==> x != [] && TrimmedField(fields, x)
  {
    if |fields| > 0 {
      var n := |fields| - 1;
      NonEmptyMembers(fields[..n], x);
      TrimmedFieldOneMore(fields, x);
    }
  }

  /** A string is kept by `Links` exactly when it is the trimmed form of
      one of the fields and starts with "http". */
  lemma {:induction false} LinkMembers(fields: seq<string>, x: string)
    ensures x in Links(fields) <==> StartsWith(x, "http") && TrimmedField(fields, x)
  {
    if |fields| > 0 {
      var n := |fields| - 1;
      LinkMembers(fields[..n], x);
      TrimmedFieldOneMore(fields, x);
    }
  }

  /** Files a work or plan field under its project id when it holds a
      colon. */
  function AddEntry(g: Grouping, field: string): Grouping
  {
    match Entry(field)
    case None => g
    case Some((id, status)) => Append(g, id, status)
  }

  function AddIf(xs: seq<string>, keep: bool, x: string): seq<string>
  {
    if keep then xs + [x] else xs
  }

  /** Grouping one more field's pair is appending it to the grouping. */
  lemma GroupOneMore(fields: seq<string>, field: string)
    ensures GroupPairs(EntryPairs(fields + [field])) == AddEntry(GroupPairs(EntryPairs(fields)), field)
  {
    var all := fields + [field];
    assert all[..|fields|] == fields;
    var ps := EntryPairs(fields);
    match Entry(field)
    case None =>
      assert EntryPairs(all) == ps;
    case Some(p) =>
      assert EntryPairs(all) == ps + [p];
      assert (ps + [p])[..|ps|] == ps;
  }

  lemma NonEmptyOneMore(fields: seq<string>, field: string)
    ensures NonEmpty(fields + [field]) == AddIf(NonEmpty(fields), Strip(field) != [], Strip(field))
  {
    assert (fields + [field])[..|fields|] == fields;
  }

  lemma LinksOneMore(fields: seq<string>, field: string)
    ensures Links(fields + [field]) == AddIf(Links(fields), StartsWith(Strip(field), "http"), Strip(field))
  {
    assert (fields + [field])[..|fields|] == fields;
  }

  /** A grouped column (work or plan) after one more record. */
  lemma GroupedColumnStep(records: seq<Record>, i: nat, col: Column)
    requires i < |records|
    ensures GroupPairs(EntryPairs(Fields(records[..i + 1], col)))
         == AddEntry(GroupPairs(EntryPairs(Fields(records[..i], col))), Field(records[i], col))
  {
    assert records[..i + 1] == records[..i] + [records[i]];
    FieldsOneMore(records[..i], records[i], col);
    GroupOneMore(Fields(records[..i], col), Field(records[i], col));
  }

  /** A column kept when non-empty (learnings, support, insights) after
      one more record. */
  lemma NonEmptyColumnStep(records: seq<Record>, i: nat, col: Column)
    requires i < |records|
    ensures NonEmpty(Fields(records[..i + 1], col))
         == AddIf(NonEmpty(Fields(records[..i], col)), Strip(Field(records[i], col)) != [], Strip(Field(records[i], col)))
  {
    assert records[..i + 1] == records[..i] + [records[i]];
    FieldsOneMore(records[..i], records[i], col);
    NonEmptyOneMore(Fields(records[..i], col), Field(records[i], col));
  }

  /** The blog column after one more record. */
  lemma LinksColumnStep(records: seq<Record>, i: nat)
    requires i < |records|
    ensures Links(Fields(records[..i + 1], BlogColumn))
         == AddIf(Links(Fields(records[..i], BlogColumn)), StartsWith(Strip(records[i].blog), "http"), Strip(records[i].blog))
  {
    assert records[..i + 1] == records[..i] + [records[i]];
    FieldsOneMore(records[..i], records[i], BlogColumn);
    LinksOneMore(Fields(records[..i], BlogColumn), records[i].blog);
  }

  /** One pass of the loop body over a record. */
  function Step(c: Collections, r: Record): Collections
  {
    var learn := Strip(r.learning);
    var support := Strip(r.support);
    var insight := Strip(r.insight);
    var blog := Strip(r.blog);
    Collections(
      AddEntry(c.work, r.work),
      AddIf(c.learned, learn != [], learn),
      AddEntry(c.plans, r.plan),
      AddIf(c.support, support != [], support),
      AddIf(c.insights, insight != [], insight),
      AddIf(c.blogs, StartsWith(blog, "http"), blog))
  }

  /** The collections after the loop body has run over `records` in
      order, starting from empty accumulators. */
  function Absorbed(records: seq<Record>): Collections
  {
    if |records| == 0 then Collections([], [], [], [], [], [])
    else
      var n := |records| - 1;
      Step(Absorbed(records[..n]), records[n])
  }

  /** The list a non-empty-filtered column accumulates into. */
  function ListOf(c: Collections, col: Column): seq<string>
    requires col == LearningColumn || col == SupportColumn || col == InsightColumn
  {
    match col
    case LearningColumn => c.learned
    case SupportColumn => c.support
    case _ => c.insights
  }

  /** The work grouping the loop builds is the work column grouped by
      project id. */
  lemma {:induction false} AbsorbedWork(records: seq<Record>)
    ensures Absorbed(records).work == GroupPairs(EntryPairs(Fields(records, WorkColumn)))
  {
    if |records| > 0 {
      var n := |records| - 1;
      var prev := Absorbed(records[..n]);
      AbsorbedWork(records[..n]);
      assert Absorbed(records).work == AddEntry(prev.work, records[n].work);
      assert records[..n + 1] == records;
      GroupedColumnStep(records, n, WorkColumn);
    }
  }

  /** The plan grouping the loop builds is the plan column grouped by
      project id. */
  lemma {:induction false} AbsorbedPlans(records: seq<Record>)
    ensures Absorbed(records).plans == GroupPairs(EntryPairs(Fields(records, PlanColumn)))
  {
    if |records| > 0 {
      var n := |records| - 1;
      var prev := Absorbed(records[..n]);
      AbsorbedPlans(records[..n]);
      assert Absorbed(records).plans == AddEntry(prev.plans, records[n].plan);
      assert records[..n + 1] == records;
      GroupedColumnStep(records, n, PlanColumn);
    }
  }

  /** The learnings, support needs and insights the loop builds are the
      non-empty trimmed entries of their columns. */
  lemma {:induction false} AbsorbedLists(records: seq<Record>, col: Column)
    requires col == LearningColumn || col == SupportColumn || col == InsightColumn
    ensures ListOf(Absorbed(records), col) == NonEmpty(Fields(records, col))
  {
    if |records| > 0 {
      var n := |records| - 1;
      var prev := Absorbed(records[..n]);
      var e := Strip(Field(records[n], col));
      AbsorbedLists(records[..n], col);
      assert ListOf(Absorbed(records), col) == AddIf(ListOf(prev, col), e != [], e);
      assert records[..n + 1] == records;
      NonEmptyColumnStep(records, n, col);
    }
  }

  /** The blog links the loop builds are the trimmed blog entries that
      start with "http". */
  lemma {:induction false} AbsorbedLinks(records: seq<Record>)
    ensures Absorbed(records).blogs == Links(Fields(records, BlogColumn))
  {
    if |records| > 0 {
      var n := |records| - 1;
      var prev := Absorbed(records[..n]);
      var e := Strip(records[n].blog);
      AbsorbedLinks(records[..n]);
      assert Absorbed(records).blogs == AddIf(prev.blogs, StartsWith(e, "http"), e);
      assert records[..n + 1] == records;
      LinksColumnStep(records, n);
    }
  }

  /** The aggregation loop (`for record in data`): afterwards each
      collection is exactly its column described on its own — work and
      plans grouped by project id, learnings, support needs and insights
      the non-empty trimmed entries, blogs the trimmed "http" entries. */
  method Organize(records: seq<Record>) returns (c: Collections)
    ensures c.work == GroupPairs(EntryPairs(Fields(records, WorkColumn)))
    ensures c.learned == NonEmpty(Fields(records, LearningColumn))
    ensures c.plans == GroupPairs(EntryPairs(Fields(records, PlanColumn)))
    ensures c.support == NonEmpty(Fields(records, SupportColumn))
    ensures c.insights == NonEmpty(Fields(records, InsightColumn))
    ensures c.blogs == Links(Fields(records, BlogColumn))
  {
    c := Collections([], [], [], [], [], []);
    var i := 0;
    while i < |records|
      invariant 0 <= i <= |records|
      invariant c == Absorbed(records[..i])
    {
      assert records[..i + 1][..i] == records[..i];
      c := Step(c, records[i]);
      i := i + 1;
    }
    assert records[..i] == records;
    AbsorbedWork(records);
    AbsorbedPlans(records);
    AbsorbedLists(records, LearningColumn);
    AbsorbedLists(records, SupportColumn);
    AbsorbedLists(records, InsightColumn);
    AbsorbedLinks(records);
  }
}
