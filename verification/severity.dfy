/**
 The severity filter of the risk summary report: for every group, in key
 order, the entries whose severity the reader selected; groups left empty
 by the filter are not shown. The grouping itself is a value and is not
 changed by filtering.
 */
module SeverityFilter {
  import opened Rules
  import opened Analysis
  import opened Grouping
  import opened Sequences

  /** The list comprehension `[r for r in items if r["severity"] in
      severity_filter]`: the entries whose severity is selected, in order and
      with their multiplicity. */
  function BySeverity(items: seq<Entry>, allowed: seq<Severity>): (r: seq<Entry>)
    ensures IsSubsequence(r, items)
    ensures forall m :: 0 <= m < |r| ==> r[m].severity in allowed
    ensures forall x :: multiset(r)[x] == if x.severity in allowed then multiset(items)[x] else 0
  {
    if |items| == 0 then []
    else
      var rest := BySeverity(items[1..], allowed);
      assert items == [items[0]] + items[1..];
      if items[0].severity in allowed then
        assert ([items[0]] + rest)[1..] == rest;
        [items[0]] + rest
      else rest
  }

  /** When every entry has the same severity `s`, the filter keeps all of
      them or none, depending on whether `s` is selected. */
  lemma {:induction false} UniformFilter(items: seq<Entry>, s: Severity, allowed: seq<Severity>)
    requires forall m :: 0 <= m < |items| ==> items[m].severity == s
    ensures BySeverity(items, allowed) == if s in allowed then items else []
  {
    if |items| > 0 {
      UniformFilter(items[1..], s, allowed);
      assert items == [items[0]] + items[1..];
    }
  }

  /** When every entry's severity is selected, the filter keeps them all. */
  lemma {:induction false} AllSelectedKeepAll(items: seq<Entry>, allowed: seq<Severity>)
    requires forall m :: 0 <= m < |items| ==> items[m].severity in allowed
    ensures BySeverity(items, allowed) == items
  {
    if |items| > 0 {
      AllSelectedKeepAll(items[1..], allowed);
      assert items == [items[0]] + items[1..];
    }
  }

  /** Selecting both severities, as the report does by default, keeps every
      entry. */
  lemma BothSeveritiesKeepAll(items: seq<Entry>)
    ensures BySeverity(items, [High, Medium]) == items
  {
    forall m | 0 <= m < |items|
      ensures items[m].severity in [High, Medium]
    {
      if items[m].severity == High {
        assert [High, Medium][0] == High;
      } else {
        assert [High, Medium][1] == Medium;
      }
    }
    AllSelectedKeepAll(items, [High, Medium]);
  }

  // ---------------------------------------------------------------------
  // The report over all groups.
  // ---------------------------------------------------------------------

  /** The section the report would show for one group: its type and the
      filtered entries. */
  function Section(grp: Group, allowed: seq<Severity>): Group {
    Group(grp.kind, BySeverity(grp.entries, allowed))
  }

  /** The candidate sections, one per group, in key order. */
  function Sections(g: seq<Group>, allowed: seq<Severity>): (r: seq<Group>)
    ensures |r| == |g|
    ensures forall i :: 0 <= i < |g| ==> r[i] == Section(g[i], allowed)
  {
    seq(|g|, i requires 0 <= i < |g| => Section(g[i], allowed))
  }

  /** The groups of `secs` that hold entries, in order. */
  function NonEmpty(secs: seq<Group>): (r: seq<Group>)
    ensures IsSubsequence(r, secs)
    ensures forall l :: 0 <= l < |r| ==> |r[l].entries| > 0
    ensures forall x :: x in secs && |x.entries| > 0 ==> x in r
  {
    if |secs| == 0 then []
    else
      var rest := NonEmpty(secs[1..]);
      assert secs == [secs[0]] + secs[1..];
      if |secs[0].entries| > 0 then
        assert ([secs[0]] + rest)[1..] == rest;
        [secs[0]] + rest
      else rest
  }

  /** The loop over `grouped.items()`: a section for every group whose
      filtered list is not empty, in key order. */
  function SeverityReport(g: seq<Group>, allowed: seq<Severity>): (r: seq<Group>)
    ensures IsSubsequence(r, Sections(g, allowed))
    ensures forall l :: 0 <= l < |r| ==> |r[l].entries| > 0
    ensures forall i :: 0 <= i < |g| && |Section(g[i], allowed).entries| > 0 ==> Section(g[i], allowed) in r
  {
    var secs := Sections(g, allowed);
    assert forall i :: 0 <= i < |g| ==> Section(g[i], allowed) in secs;
    NonEmpty(secs)
  }

  /** Groups that all hold entries are all kept. */
  lemma {:induction false} NonEmptyKeepsAll(secs: seq<Group>)
    requires forall i :: 0 <= i < |secs| ==> |secs[i].entries| > 0
    ensures NonEmpty(secs) == secs
  {
    if |secs| > 0 {
      NonEmptyKeepsAll(secs[1..]);
      assert secs == [secs[0]] + secs[1..];
    }
  }

  /** With both severities selected, every non-empty group is shown whole,
      in key order. */
  lemma DefaultReportShowsAll(g: seq<Group>)
    requires forall i :: 0 <= i < |g| ==> |g[i].entries| > 0
    ensures SeverityReport(g, [High, Medium]) == g
  {
    var secs := Sections(g, [High, Medium]);
    forall i | 0 <= i < |g|
      ensures secs[i] == g[i]
    {
      BothSeveritiesKeepAll(g[i].entries);
    }
    assert secs == g;
    NonEmptyKeepsAll(g);
  }

  /** When each section is either its group or empty, the non-empty sections
      are groups in key order. */
  lemma {:induction false} WholeOrEmpty(secs: seq<Group>, g: seq<Group>)
    requires |secs| == |g|
    requires forall i :: 0 <= i < |g| ==> secs[i] == g[i] || |secs[i].entries| == 0
    ensures IsSubsequence(NonEmpty(secs), g)
  {
    if |g| > 0 {
      WholeOrEmpty(secs[1..], g[1..]);
      var rest := NonEmpty(secs[1..]);
      if |secs[0].entries| > 0 {
        assert NonEmpty(secs) == [g[0]] + rest;
        assert ([g[0]] + rest)[1..] == rest;
      } else if |rest| > 0 {
        assert NonEmpty(secs) == rest;
      }
    }
  }

  /** Every group is non-empty and its entries carry the fixed severity of
      the group's type: what `group_risks` returns for analysed text. */
  predicate UniformGroups(g: seq<Group>) {
    forall i :: 0 <= i < |g| ==>
      && |g[i].entries| > 0
      && (forall m :: 0 <= m < |g[i].entries| ==> g[i].entries[m].severity == FindingFor(g[i].kind).severity)
  }

  /** On uniform groups each section is its whole group when the severity of
      its type is selected, and empty otherwise. */
  lemma UniformSections(g: seq<Group>, allowed: seq<Severity>)
    requires UniformGroups(g)
    ensures forall i :: 0 <= i < |g| ==>
      Sections(g, allowed)[i] == if FindingFor(g[i].kind).severity in allowed then g[i] else Group(g[i].kind, [])
  {
    forall i | 0 <= i < |g|
      ensures Sections(g, allowed)[i] == if FindingFor(g[i].kind).severity in allowed then g[i] else Group(g[i].kind, [])
    {
      UniformFilter(g[i].entries, FindingFor(g[i].kind).severity, allowed);
    }
  }

  /** On uniform groups the report lists whole groups in key order. */
  lemma UniformReportOrder(g: seq<Group>, allowed: seq<Severity>)
    requires UniformGroups(g)
    ensures IsSubsequence(SeverityReport(g, allowed), g)
  {
    UniformSections(g, allowed);
    WholeOrEmpty(Sections(g, allowed), g);
  }

  /** On uniform groups the report shows exactly the groups whose type has a
      selected severity. */
  lemma UniformReport(g: seq<Group>, allowed: seq<Severity>)
    requires UniformGroups(g)
    ensures forall x :: x in SeverityReport(g, allowed) <==> x in g && FindingFor(x.kind).severity in allowed
  {
    var secs := Sections(g, allowed);
    var r := SeverityReport(g, allowed);
    UniformSections(g, allowed);
    SubsequenceElements(r, secs);
    forall x | x in g && FindingFor(x.kind).severity in allowed
      ensures x in r
    {
      var i :| 0 <= i < |g| && g[i] == x;
      assert secs[i] == g[i];
    }
    forall x | x in r
      ensures x in g && FindingFor(x.kind).severity in allowed
    {
      var i :| 0 <= i < |secs| && secs[i] == x;
      assert |secs[i].entries| > 0;
    }
  }

  /** The groups of analysed text are uniform. */
  lemma AnalysedGroupsUniform(text: string)
    ensures UniformGroups(GroupRisks(AnalyzeText(text)))
  {
    GroupRisksSeverity(AnalyzeText(text));
    GroupRisksEntries(AnalyzeText(text));
  }

  /** On analysed text the report shows exactly the groups whose type has a
      selected severity, each whole, in key order. */
  lemma AnalysedReport(text: string, allowed: seq<Severity>)
    ensures IsSubsequence(SeverityReport(GroupRisks(AnalyzeText(text)), allowed), GroupRisks(AnalyzeText(text)))
    ensures forall x :: x in SeverityReport(GroupRisks(AnalyzeText(text)), allowed) <==>
      x in GroupRisks(AnalyzeText(text)) && FindingFor(x.kind).severity in allowed
  {
    AnalysedGroupsUniform(text);
    UniformReportOrder(GroupRisks(AnalyzeText(text)), allowed);
    UniformReport(GroupRisks(AnalyzeText(text)), allowed);
  }
}
