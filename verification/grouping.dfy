/**
 `group_risks`: gather the findings of all analysed clauses by risk type.
 The source builds a dictionary keyed by type, whose iteration order is the
 order in which keys were first inserted; it is modelled as a sequence of
 groups in that order.
 */
module Grouping {
  import opened Rules
  import opened Analysis

  /** One entry of a group: the clause, the finding's type and severity, and
      the clause's position. The message shown for it is `Message()`. */
  datatype Entry = Entry(clause: string, kind: RiskType, severity: Severity, index: nat)
  {
    function Message(): string {
      MessageOf(kind)
    }
  }

  /** The entries gathered under one risk type. */
  datatype Group = Group(kind: RiskType, entries: seq<Entry>)

  // ---------------------------------------------------------------------
  // The entries, in the order the source visits them.
  // ---------------------------------------------------------------------

  /** The entries of one record, one per finding, in finding order. */
  function EntriesOf(r: Record): (es: seq<Entry>)
    ensures |es| == |r.risks|
    ensures forall m :: 0 <= m < |es| ==> es[m] == Entry(r.clause, r.risks[m].kind, r.risks[m].severity, r.index)
  {
    seq(|r.risks|, m requires 0 <= m < |r.risks| => Entry(r.clause, r.risks[m].kind, r.risks[m].severity, r.index))
  }

  /** Number of findings over all records. */
  function TotalFindings(rs: seq<Record>): nat {
    if |rs| == 0 then 0 else |rs[0].risks| + TotalFindings(rs[1..])
  }

  /** The entries of all records, record by record: the order of the two
      nested loops of `group_risks`. */
  function Flatten(rs: seq<Record>): (es: seq<Entry>)
    ensures |es| == TotalFindings(rs)
  {
    if |rs| == 0 then [] else EntriesOf(rs[0]) + Flatten(rs[1..])
  }

  /** Some entry of `es` has type `k`. */
  predicate Occurs(es: seq<Entry>, k: RiskType) {
    exists p :: 0 <= p < |es| && es[p].kind == k
  }

  /** The types occurring in `es` are those of its proper prefix and of its
      last entry. */
  lemma OccursSnoc(es: seq<Entry>, k: RiskType)
    requires |es| > 0
    ensures Occurs(es, k) <==> Occurs(es[..|es| - 1], k) || es[|es| - 1].kind == k
  {
    var es0 := es[..|es| - 1];
    if Occurs(es, k) && es[|es| - 1].kind != k {
      var p :| 0 <= p < |es| && es[p].kind == k;
      assert es0[p].kind == k;
    }
    if Occurs(es0, k) {
      var p :| 0 <= p < |es0| && es0[p].kind == k;
      assert es[p].kind == k;
    }
  }

  /** The entries of `es` of type `k`, in order. */
  function OfKind(es: seq<Entry>, k: RiskType): (r: seq<Entry>)
    ensures |r| <= |es|
    ensures forall m :: 0 <= m < |r| ==> r[m].kind == k && r[m] in es
    ensures Occurs(es, k) <==> |r| > 0
  {
    if |es| == 0 then []
    else OfKind(es[..|es| - 1], k) + (if es[|es| - 1].kind == k then [es[|es| - 1]] else [])
  }

  // ---------------------------------------------------------------------
  // Groups in insertion order.
  // ---------------------------------------------------------------------

  /** Some group has type `k`. */
  predicate HasKey(g: seq<Group>, k: RiskType) {
    exists i :: 0 <= i < |g| && g[i].kind == k
  }

  /** A type is a key exactly when its position lies inside the groups. */
  lemma KeyIndexHasKey(g: seq<Group>, k: RiskType)
    ensures HasKey(g, k) <==> KeyIndex(g, k) < |g|
  {
    if KeyIndex(g, k) < |g| {
      assert g[KeyIndex(g, k)].kind == k;
    }
  }

  /** No two groups share a type. */
  predicate DistinctKeys(g: seq<Group>) {
    forall i, j :: 0 <= i < j < |g| ==> g[i].kind != g[j].kind
  }

  /** Position of the first group of type `k`, or `|g|` when there is none:
      where `grouped[k]` lives. */
  function KeyIndex(g: seq<Group>, k: RiskType): (i: nat)
    ensures i <= |g|
    ensures i < |g| ==> g[i].kind == k
    ensures forall j :: 0 <= j < i ==> g[j].kind != k
  {
    if |g| == 0 then 0
    else if g[0].kind == k then 0
    else 1 + KeyIndex(g[1..], k)
  }

  /** `grouped[k]`, or the empty list when `k` is no key. */
  function Lookup(g: seq<Group>, k: RiskType): seq<Entry> {
    var i := KeyIndex(g, k);
    if i < |g| then g[i].entries else []
  }

  /** Number of entries over all groups. */
  function Total(g: seq<Group>): nat {
    if |g| == 0 then 0 else |g[0].entries| + Total(g[1..])
  }

  /** Replacing one group by one with `d` more entries adds `d` to the total. */
  lemma {:induction false} TotalUpdate(g: seq<Group>, i: nat, x: Group)
    requires i < |g|
    ensures Total(g[i := x]) == Total(g) - |g[i].entries| + |x.entries|
  {
    if i > 0 {
      TotalUpdate(g[1..], i - 1, x);
      assert g[i := x][1..] == g[1..][i - 1 := x];
    }
  }

  /** Adding a group at the end adds its entries to the total. */
  lemma {:induction false} TotalSnoc(g: seq<Group>, x: Group)
    ensures Total(g + [x]) == Total(g) + |x.entries|
  {
    if |g| > 0 {
      TotalSnoc(g[1..], x);
      assert (g + [x])[1..] == g[1..] + [x];
    }
  }

  /** One step of the inner loop of `group_risks`: create the group of the
      entry's type at the end if it is new, then append the entry to it. */
  function Insert(g: seq<Group>, e: Entry): (g': seq<Group>)
    ensures |g'| == if HasKey(g, e.kind) then |g| else |g| + 1
    ensures forall i :: 0 <= i < |g| ==> g'[i].kind == g[i].kind
    ensures !HasKey(g, e.kind) ==> g'[|g|] == Group(e.kind, [e])
  {
    var i := KeyIndex(g, e.kind);
    if i < |g| then g[i := Group(e.kind, g[i].entries + [e])]
    else g + [Group(e.kind, [e])]
  }

  /** After `Insert`, the group of the entry's type has gained the entry at
      its end, and every other group is as it was. */
  lemma InsertLookup(g: seq<Group>, e: Entry, k: RiskType)
    requires DistinctKeys(g)
    ensures Lookup(Insert(g, e), k) == Lookup(g, k) + (if k == e.kind then [e] else [])
  {
  }

  /** `Insert` adds exactly one entry. */
  lemma InsertTotal(g: seq<Group>, e: Entry)
    ensures Total(Insert(g, e)) == Total(g) + 1
  {
    var i := KeyIndex(g, e.kind);
    if i < |g| {
      TotalUpdate(g, i, Group(e.kind, g[i].entries + [e]));
    } else {
      TotalSnoc(g, Group(e.kind, [e]));
    }
  }

  /** The grouping of a list of entries: the fold of `Insert` over it. */
  function GroupAll(es: seq<Entry>): (g: seq<Group>)
  {
    if |es| == 0 then [] else Insert(GroupAll(es[..|es| - 1]), es[|es| - 1])
  }

  /** `group_risks`: the grouping of every finding of every record. The list
      under each type holds that type's entries, in visiting order. */
  function GroupRisks(rs: seq<Record>): (g: seq<Group>)
    ensures forall k :: Lookup(g, k) == OfKind(Flatten(rs), k)
  {
    GroupAllLookup(Flatten(rs));
    GroupAll(Flatten(rs))
  }

  // ---------------------------------------------------------------------
  // What `Insert` does to the keys.
  // ---------------------------------------------------------------------

  /** After `Insert`, the keys are the old ones and the entry's type. */
  lemma InsertHasKey(g: seq<Group>, e: Entry)
    ensures forall k :: HasKey(Insert(g, e), k) <==> HasKey(g, k) || k == e.kind
  {
    forall k
      ensures HasKey(Insert(g, e), k) <==> HasKey(g, k) || k == e.kind
    {
      InsertHasKeyAt(g, e, k);
    }
  }

  /** `InsertHasKey` for one type `k`. */
  lemma InsertHasKeyAt(g: seq<Group>, e: Entry, k: RiskType)
    ensures HasKey(Insert(g, e), k) <==> HasKey(g, k) || k == e.kind
  {
    var g' := Insert(g, e);
    if HasKey(g', k) {
      var i :| 0 <= i < |g'| && g'[i].kind == k;
      if i < |g| {
        assert g[i].kind == k;
      }
    }
    if HasKey(g, k) {
      var i :| 0 <= i < |g| && g[i].kind == k;
      assert g'[i].kind == k;
    }
    if k == e.kind && !HasKey(g, k) {
      assert g'[|g|].kind == k;
    }
  }

  /** `Insert` keeps the keys distinct. */
  lemma InsertDistinct(g: seq<Group>, e: Entry)
    requires DistinctKeys(g)
    ensures DistinctKeys(Insert(g, e))
  {
    var g' := Insert(g, e);
    forall i, j | 0 <= i < j < |g'|
      ensures g'[i].kind != g'[j].kind
    {
      if j == |g| {
        assert !HasKey(g, e.kind);
        assert g'[i].kind == g[i].kind;
      }
    }
  }

  // ---------------------------------------------------------------------
  // What `GroupAll` computes.
  // ---------------------------------------------------------------------

  /** The keys of the grouping are distinct and are exactly the types that
      occur among the entries. */
  lemma {:induction false} GroupAllKeys(es: seq<Entry>)
    ensures DistinctKeys(GroupAll(es))
    ensures forall k :: HasKey(GroupAll(es), k) <==> Occurs(es, k)
  {
    if |es| > 0 {
      var es0 := es[..|es| - 1];
      var e := es[|es| - 1];
      GroupAllKeys(es0);
      InsertHasKey(GroupAll(es0), e);
      InsertDistinct(GroupAll(es0), e);
      forall k
        ensures Occurs(es, k) <==> Occurs(es0, k) || e.kind == k
      {
        OccursSnoc(es, k);
      }
    }
  }

  /** The group of each type holds exactly the entries of that type, in
      their original order. */
  lemma {:induction false} GroupAllLookup(es: seq<Entry>)
    ensures forall k :: Lookup(GroupAll(es), k) == OfKind(es, k)
  {
    if |es| > 0 {
      var es0 := es[..|es| - 1];
      GroupAllLookup(es0);
      GroupAllKeys(es0);
      forall k
        ensures Lookup(GroupAll(es), k) == OfKind(es, k)
      {
        InsertLookup(GroupAll(es0), es[|es| - 1], k);
      }
    }
  }

  /** Grouping loses and adds no entry. */
  lemma {:induction false} GroupAllTotal(es: seq<Entry>)
    ensures Total(GroupAll(es)) == |es|
  {
    if |es| > 0 {
      GroupAllTotal(es[..|es| - 1]);
      InsertTotal(GroupAll(es[..|es| - 1]), es[|es| - 1]);
    }
  }

  /** With distinct keys, looking up a group's type yields that group. */
  lemma LookupAt(g: seq<Group>, i: nat)
    requires DistinctKeys(g) && i < |g|
    ensures Lookup(g, g[i].kind) == g[i].entries
  {
    var j := KeyIndex(g, g[i].kind);
    assert j <= i;
  }

  // ---------------------------------------------------------------------
  // Keys in order of first appearance.
  // ---------------------------------------------------------------------

  /** Some entry of type `k` comes before position `q` of `es`. */
  predicate SeenBefore(es: seq<Entry>, k: RiskType, q: nat) {
    exists p :: 0 <= p < q && p < |es| && es[p].kind == k
  }

  /** The groups are in the order in which their types first appear in `es`:
      every entry of a later group's type comes after some entry of each
      earlier group's type. */
  predicate FirstAppearanceOrder(g: seq<Group>, es: seq<Entry>) {
    forall i, j, q :: 0 <= i < j < |g| && 0 <= q < |es| && es[q].kind == g[j].kind ==>
      SeenBefore(es, g[i].kind, q)
  }

  /** Appending an entry keeps what was seen before. */
  lemma SeenBeforeSnoc(es0: seq<Entry>, e: Entry, k: RiskType, q: nat)
    requires SeenBefore(es0, k, q)
    ensures SeenBefore(es0 + [e], k, q)
  {
    var p :| 0 <= p < q && p < |es0| && es0[p].kind == k;
    assert (es0 + [e])[p] == es0[p];
  }

  /** One case of `GroupAllOrder`: the last entry `e` was added to the
      groups `g0` of the entries `es0` before it. */
  lemma OrderStep(es0: seq<Entry>, e: Entry, i: nat, j: nat, q: nat)
    requires FirstAppearanceOrder(GroupAll(es0), es0)
    requires forall k :: HasKey(GroupAll(es0), k) <==> Occurs(es0, k)
    requires i < j < |Insert(GroupAll(es0), e)| && q <= |es0|
    requires (es0 + [e])[q].kind == Insert(GroupAll(es0), e)[j].kind
    ensures SeenBefore(es0 + [e], Insert(GroupAll(es0), e)[i].kind, q)
  {
    var g0 := GroupAll(es0);
    var g := Insert(g0, e);
    assert g[i].kind == g0[i].kind;
    if j < |g0| {
      assert g[j].kind == g0[j].kind;
      var q' := OldKeyWitness(es0, g0, e, j, q);
      assert SeenBefore(es0, g0[i].kind, q');
      SeenBeforeSnoc(es0, e, g0[i].kind, q);
    } else {
      NewKeyOrder(es0, g0, e, i, q);
      SeenBeforeSnoc(es0, e, g0[i].kind, q);
    }
  }

  /** An entry of the old entries of type `g0[j].kind`, no later than `q`. */
  lemma OldKeyWitness(es0: seq<Entry>, g0: seq<Group>, e: Entry, j: nat, q: nat) returns (q': nat)
    requires forall k :: HasKey(g0, k) <==> Occurs(es0, k)
    requires j < |g0| && q <= |es0|
    requires (es0 + [e])[q].kind == g0[j].kind
    ensures q' <= q && q' < |es0| && es0[q'].kind == g0[j].kind
  {
    if q == |es0| {
      assert HasKey(g0, g0[j].kind);
      q' :| 0 <= q' < |es0| && es0[q'].kind == g0[j].kind;
    } else {
      q' := q;
      assert es0[q] == (es0 + [e])[q];
    }
  }

  /** When the later group is the one just created, its entry is the new
      last one, and every old key was seen before it. */
  lemma NewKeyOrder(es0: seq<Entry>, g0: seq<Group>, e: Entry, i: nat, q: nat)
    requires forall k :: HasKey(g0, k) <==> Occurs(es0, k)
    requires i < |g0| && q <= |es0| && !HasKey(g0, e.kind)
    requires (es0 + [e])[q].kind == e.kind
    ensures SeenBefore(es0, g0[i].kind, q)
  {
    assert !Occurs(es0, e.kind);
    assert q == |es0|;
    assert HasKey(g0, g0[i].kind);
  }

  /** `GroupAll` lists its groups in order of first appearance. */
  lemma {:induction false} GroupAllOrder(es: seq<Entry>)
    ensures FirstAppearanceOrder(GroupAll(es), es)
  {
    if |es| > 0 {
      var es0 := es[..|es| - 1];
      var e := es[|es| - 1];
      assert es == es0 + [e];
      GroupAllOrder(es0);
      GroupAllKeys(es0);
      var g := GroupAll(es);
      forall i, j, q | 0 <= i < j < |g| && 0 <= q < |es| && es[q].kind == g[j].kind
        ensures SeenBefore(es, g[i].kind, q)
      {
        OrderStep(es0, e, i, j, q);
      }
    }
  }

  // ---------------------------------------------------------------------
  // The entries come from the records, and all of them are there.
  // ---------------------------------------------------------------------

  /** `x` is the entry of the `m`-th finding of some record of `rs`. */
  predicate FromRecords(x: Entry, rs: seq<Record>) {
    exists j, m :: 0 <= j < |rs| && 0 <= m < |rs[j].risks| &&
      x == Entry(rs[j].clause, rs[j].risks[m].kind, rs[j].risks[m].severity, rs[j].index)
  }

  /** Every entry of `Flatten(rs)` comes from a finding of a record, and every
      finding of every record has its entry. */
  lemma {:induction false} FlattenEntries(rs: seq<Record>)
    ensures forall x :: x in Flatten(rs) <==> FromRecords(x, rs)
  {
    if |rs| > 0 {
      FlattenEntries(rs[1..]);
      var head := EntriesOf(rs[0]);
      forall x
        ensures x in Flatten(rs) <==> FromRecords(x, rs)
      {
        if x in head {
          var m :| 0 <= m < |head| && head[m] == x;
          assert rs[0].risks[m] == rs[0].risks[m];
        } else if x in Flatten(rs[1..]) {
          var j, m :| 0 <= j < |rs[1..]| && 0 <= m < |rs[1..][j].risks| &&
            x == Entry(rs[1..][j].clause, rs[1..][j].risks[m].kind, rs[1..][j].risks[m].severity, rs[1..][j].index);
          assert rs[j + 1] == rs[1..][j];
        }
        if FromRecords(x, rs) {
          var j, m :| 0 <= j < |rs| && 0 <= m < |rs[j].risks| &&
            x == Entry(rs[j].clause, rs[j].risks[m].kind, rs[j].risks[m].severity, rs[j].index);
          if j == 0 {
            assert head[m] == x;
          } else {
            assert rs[1..][j - 1] == rs[j];
            assert FromRecords(x, rs[1..]);
          }
        }
      }
    }
  }

  /** Positions never decrease along `es`. */
  predicate IndicesSorted(es: seq<Entry>) {
    forall p, q :: 0 <= p < q < |es| ==> es[p].index <= es[q].index
  }

  /** The entries of one type keep the order of positions. */
  lemma {:induction false} OfKindSorted(es: seq<Entry>, k: RiskType)
    requires IndicesSorted(es)
    ensures IndicesSorted(OfKind(es, k))
  {
    if |es| > 0 {
      var es0 := es[..|es| - 1];
      var last := es[|es| - 1];
      OfKindSorted(es0, k);
      var r0 := OfKind(es0, k);
      forall m | 0 <= m < |r0|
        ensures r0[m].index <= last.index
      {
        var p :| 0 <= p < |es0| && es0[p] == r0[m];
        assert es[p] == es0[p];
      }
      var r := OfKind(es, k);
      forall p, q | 0 <= p < q < |r|
        ensures r[p].index <= r[q].index
      {
        assert r[p] == r0[p];
        if q < |r0| {
          assert r[q] == r0[q];
        }
      }
    }
  }

  /** Entries of records with increasing positions come in position order. */
  lemma {:induction false} FlattenSorted(rs: seq<Record>)
    requires IndicesIncrease(rs)
    ensures IndicesSorted(Flatten(rs))
  {
    if |rs| > 0 {
      assert IndicesIncrease(rs[1..]);
      FlattenSorted(rs[1..]);
      FlattenEntries(rs[1..]);
      var head := EntriesOf(rs[0]);
      var tail := Flatten(rs[1..]);
      forall q | 0 <= q < |tail|
        ensures rs[0].index < tail[q].index
      {
        assert tail[q] in tail;
        var j, m :| 0 <= j < |rs[1..]| && 0 <= m < |rs[1..][j].risks| &&
          tail[q] == Entry(rs[1..][j].clause, rs[1..][j].risks[m].kind, rs[1..][j].risks[m].severity, rs[1..][j].index);
        assert rs[1..][j] == rs[j + 1];
      }
    }
  }

  /** `OfKind` keeps every entry of type `k` as often as `es` has it, and
      nothing else. */
  lemma {:induction false} OfKindCounts(es: seq<Entry>, k: RiskType)
    ensures forall x :: multiset(OfKind(es, k))[x] == if x.kind == k then multiset(es)[x] else 0
  {
    if |es| > 0 {
      var es0 := es[..|es| - 1];
      assert es == es0 + [es[|es| - 1]];
      OfKindCounts(es0, k);
    }
  }

  /** An entry of type `k` comes from a record with a finding of type `k`. */
  lemma OccursInRecord(rs: seq<Record>, k: RiskType, p: nat)
    requires p < |Flatten(rs)| && Flatten(rs)[p].kind == k
    ensures exists j :: 0 <= j < |rs| && HasKind(rs[j].risks, k)
  {
    var x := Flatten(rs)[p];
    FlattenEntries(rs);
    assert x in Flatten(rs);
    var j, m :| 0 <= j < |rs| && 0 <= m < |rs[j].risks| &&
      x == Entry(rs[j].clause, rs[j].risks[m].kind, rs[j].risks[m].severity, rs[j].index);
    assert HasKind(rs[j].risks, k);
  }

  /** A finding of type `k` in a record gives an entry of type `k`. */
  lemma RecordInOccurs(rs: seq<Record>, k: RiskType, j: nat, m: nat)
    requires j < |rs| && m < |rs[j].risks| && rs[j].risks[m].kind == k
    ensures Occurs(Flatten(rs), k)
  {
    var x := Entry(rs[j].clause, rs[j].risks[m].kind, rs[j].risks[m].severity, rs[j].index);
    FlattenEntries(rs);
    assert FromRecords(x, rs);
    assert x in Flatten(rs);
  }

  /** A type occurs among the entries exactly when some record has a finding
      of that type. */
  lemma FlattenOccurs(rs: seq<Record>, k: RiskType)
    ensures Occurs(Flatten(rs), k) <==> exists j :: 0 <= j < |rs| && HasKind(rs[j].risks, k)
  {
    if Occurs(Flatten(rs), k) {
      var p :| 0 <= p < |Flatten(rs)| && Flatten(rs)[p].kind == k;
      OccursInRecord(rs, k, p);
    }
    if exists j :: 0 <= j < |rs| && HasKind(rs[j].risks, k) {
      var j :| 0 <= j < |rs| && HasKind(rs[j].risks, k);
      var m :| 0 <= m < |rs[j].risks| && rs[j].risks[m].kind == k;
      RecordInOccurs(rs, k, j, m);
    }
  }

  // ---------------------------------------------------------------------
  // What `group_risks` promises.
  // ---------------------------------------------------------------------

  /** The keys of `group_risks` are exactly the risk types that occur in some
      record, each once, in order of first appearance. */
  lemma GroupRisksKeys(rs: seq<Record>)
    ensures DistinctKeys(GroupRisks(rs))
    ensures forall k :: HasKey(GroupRisks(rs), k) <==> exists j :: 0 <= j < |rs| && HasKind(rs[j].risks, k)
    ensures FirstAppearanceOrder(GroupRisks(rs), Flatten(rs))
  {
    GroupAllKeys(Flatten(rs));
    GroupAllOrder(Flatten(rs));
    forall k
      ensures HasKey(GroupRisks(rs), k) <==> exists j :: 0 <= j < |rs| && HasKind(rs[j].risks, k)
    {
      FlattenOccurs(rs, k);
    }
  }

  /** Each group holds exactly the entries of its type, in visiting order,
      and is never empty. */
  lemma GroupRisksEntries(rs: seq<Record>)
    ensures forall i :: 0 <= i < |GroupRisks(rs)| ==>
      GroupRisks(rs)[i].entries == OfKind(Flatten(rs), GroupRisks(rs)[i].kind) && |GroupRisks(rs)[i].entries| > 0
  {
    var es := Flatten(rs);
    var g := GroupRisks(rs);
    GroupAllKeys(es);
    GroupAllLookup(es);
    forall i | 0 <= i < |g|
      ensures g[i].entries == OfKind(es, g[i].kind) && |g[i].entries| > 0
    {
      LookupAt(g, i);
      assert HasKey(g, g[i].kind);
    }
  }

  /** No finding is lost or duplicated: the groups hold as many entries as
      the records hold findings. */
  lemma GroupRisksTotal(rs: seq<Record>)
    ensures Total(GroupRisks(rs)) == TotalFindings(rs)
  {
    GroupAllTotal(Flatten(rs));
  }

  /** For records in increasing position order, as `analyze_text` returns
      them, the positions inside every group never decrease. */
  lemma GroupRisksSorted(rs: seq<Record>)
    requires IndicesIncrease(rs)
    ensures forall i :: 0 <= i < |GroupRisks(rs)| ==> IndicesSorted(GroupRisks(rs)[i].entries)
  {
    GroupRisksEntries(rs);
    FlattenSorted(rs);
    forall i | 0 <= i < |GroupRisks(rs)|
      ensures IndicesSorted(GroupRisks(rs)[i].entries)
    {
      OfKindSorted(Flatten(rs), GroupRisks(rs)[i].kind);
    }
  }

  /** When every record holds findings as the rule engine emits them, every
      entry of a group carries the fixed severity of the group's type. */
  lemma GroupRisksSeverity(rs: seq<Record>)
    requires forall j :: 0 <= j < |rs| ==> Canonical(rs[j].risks)
    ensures forall i, m :: 0 <= i < |GroupRisks(rs)| && 0 <= m < |GroupRisks(rs)[i].entries| ==>
      GroupRisks(rs)[i].entries[m].severity == FindingFor(GroupRisks(rs)[i].kind).severity
  {
    var es := Flatten(rs);
    var g := GroupRisks(rs);
    GroupRisksEntries(rs);
    FlattenEntries(rs);
    forall i, m | 0 <= i < |g| && 0 <= m < |g[i].entries|
      ensures g[i].entries[m].severity == FindingFor(g[i].kind).severity
    {
      var x := g[i].entries[m];
      assert x.kind == g[i].kind && x in es;
      var j, n :| 0 <= j < |rs| && 0 <= n < |rs[j].risks| &&
        x == Entry(rs[j].clause, rs[j].risks[n].kind, rs[j].risks[n].severity, rs[j].index);
      assert rs[j].risks[n] == FindingFor(rs[j].risks[n].kind);
    }
  }
}
