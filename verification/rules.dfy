/**
 The risk rule engine of `legal.py` (`check_clause_risks`): four independent
 rule groups evaluated on the lower-cased clause, each contributing zero or
 more findings, concatenated in a fixed order.
 */
module Rules {
  import opened Text

  datatype RiskType = Termination | Penalty | Arbitration | Indemnity | Liability | Confidentiality

  datatype Severity = High | Medium

  /** One finding: the `severity` and the `type` of the source's dicts. The
      `risk` message is a fixed text determined by the type: `Message`. */
  datatype Finding = Finding(severity: Severity, kind: RiskType) {
    function Message(): string {
      MessageOf(kind)
    }
  }

  /** Position of each risk type in the order the rule groups emit findings. */
  function Rank(k: RiskType): nat {
    match k
    case Termination => 0
    case Penalty => 1
    case Arbitration => 2
    case Indemnity => 3
    case Liability => 4
    case Confidentiality => 5
  }

  /** The fixed message each rule attaches to its finding. */
  function MessageOf(k: RiskType): string {
    match k
    case Termination =>
      "\U{26A0}\U{FE0F} Unclear Termination: No clear notice period or timeline specified."
    case Penalty =>
      "\U{26A0}\U{FE0F} High Penalty: Financial penalty amount seems unusually high."
    case Arbitration =>
      "\U{1F6A9} Biased Arbitration: Arbitration terms appear to favor one party."
    case Indemnity =>
      "\U{1F4C4} Missing Indemnity Clause: Document may lack protection against third-party claims."
    case Liability =>
      "\U{1F4C4} Missing Liability Clause: Absence of liability limits could be risky."
    case Confidentiality =>
      "\U{1F4C4} Missing Confidentiality Clause: Sensitive information might not be protected."
  }

  /** The finding a rule emits for risk type `k`: severity High for the
      penalty and arbitration rules, Medium for the others. */
  function FindingFor(k: RiskType): (f: Finding)
    ensures f.kind == k
    ensures f.severity == High <==> k == Penalty || k == Arbitration
  {
    Finding(if k == Penalty || k == Arbitration then High else Medium, k)
  }

  // ---------------------------------------------------------------------
  // Patterns searched for with `re.search`, as one-window predicates.
  // ---------------------------------------------------------------------

  /** "day", "month" or "year" starts at `k`. */
  predicate UnitAt(s: string, k: nat) {
    OccursAt(s, k, "day") || OccursAt(s, k, "month") || OccursAt(s, k, "year")
  }

  /** A digit at `k`, one space, then a time unit: the last digit of a match of
      `\d+ (day|month|year)s?` (the optional `s` never decides whether a
      search succeeds). */
  predicate DurationAt(s: string, k: nat) {
    k + 1 < |s| && IsDigit(s[k]) && s[k + 1] == ' ' && UnitAt(s, k + 2)
  }

  predicate HasDuration(s: string) {
    exists k: nat | k < |s| :: DurationAt(s, k)
  }

  /** Two digits then `%` at `k`: the tail of a match of `\d{2,}%`. */
  predicate PercentAt(s: string, k: nat) {
    k + 2 < |s| && IsDigit(s[k]) && IsDigit(s[k + 1]) && s[k + 2] == '%'
  }

  /** `$` then three digits at `k`: the head of a match of `\$\d{3,}`. */
  predicate DollarAt(s: string, k: nat) {
    k + 3 < |s| && s[k] == '$' && IsDigit(s[k + 1]) && IsDigit(s[k + 2]) && IsDigit(s[k + 3])
  }

  /** `re.search(r"\d{2,}%|\$\d{3,}", s)` succeeds. */
  predicate HasPenaltyAmount(s: string) {
    (exists k: nat | k < |s| :: PercentAt(s, k)) || (exists k: nat | k < |s| :: DollarAt(s, k))
  }

  /** One of the governance words that arm the missing-clause rules. */
  predicate HasGovernanceWord(lc: string) {
    || Contains(lc, "agreement")
    || Contains(lc, "obligation")
    || Contains(lc, "responsibility")
    || Contains(lc, "party")
    || Contains(lc, "condition")
  }

  // ---------------------------------------------------------------------
  // The rule groups. Each reads only the keyword and pattern tests below,
  // taken once on the lower-cased clause.
  // ---------------------------------------------------------------------

  /** The outcome of every keyword and pattern test the rules consult. */
  datatype Signals = Signals(
    termination: bool,
    duration: bool,
    penalty: bool,
    amount: bool,
    arbitration: bool,
    soleDiscretion: bool,
    governance: bool,
    indemnity: bool,
    liability: bool,
    confidentiality: bool)

  /** The tests, on the lower-cased clause `lc`. */
  function SignalsOf(lc: string): Signals {
    Signals(
      termination := Contains(lc, "termination"),
      duration := HasDuration(lc),
      penalty := Contains(lc, "penalty"),
      amount := HasPenaltyAmount(lc),
      arbitration := Contains(lc, "arbitration"),
      soleDiscretion := Contains(lc, "sole discretion"),
      governance := HasGovernanceWord(lc),
      indemnity := Contains(lc, "indemnity"),
      liability := Contains(lc, "liability"),
      confidentiality := Contains(lc, "confidentiality"))
  }

  /** Some finding in `r` has risk type `k`. */
  predicate HasKind(r: seq<Finding>, k: RiskType) {
    exists i :: 0 <= i < |r| && r[i].kind == k
  }

  /** Findings as the rule engine emits them: each is the fixed finding of its
      type, and types appear in strictly increasing rank, so each at most once. */
  predicate Canonical(r: seq<Finding>) {
    && (forall i :: 0 <= i < |r| ==> r[i] == FindingFor(r[i].kind))
    && (forall i, j :: 0 <= i < j < |r| ==> Rank(r[i].kind) < Rank(r[j].kind))
  }

  /** The rule that reports risk type `k` fires. The three missing-clause rules
      are armed only by a governance word. */
  predicate Fires(s: Signals, k: RiskType) {
    match k
    case Termination => s.termination && !s.duration
    case Penalty => s.penalty && s.amount
    case Arbitration => s.arbitration && s.soleDiscretion
    case Indemnity => s.governance && !s.indemnity
    case Liability => s.governance && !s.liability
    case Confidentiality => s.governance && !s.confidentiality
  }

  /** The risk types in the order the source tests them. */
  const RuleOrder: seq<RiskType> := [Termination, Penalty, Arbitration, Indemnity, Liability, Confidentiality]

  /** Ranks strictly increase along `ks`. */
  predicate RankSorted(ks: seq<RiskType>) {
    forall i, j :: 0 <= i < j < |ks| ==> Rank(ks[i]) < Rank(ks[j])
  }

  /** Types present after prepending a finding. */
  lemma HasKindCons(f: Finding, r: seq<Finding>, k: RiskType)
    ensures HasKind([f] + r, k) <==> f.kind == k || HasKind(r, k)
  {
    var r' := [f] + r;
    if HasKind(r', k) && f.kind != k {
      var i :| 0 <= i < |r'| && r'[i].kind == k;
      assert r[i - 1].kind == k;
    }
    if HasKind(r, k) {
      var i :| 0 <= i < |r| && r[i].kind == k;
      assert r'[i + 1].kind == k;
    }
    if f.kind == k {
      assert r'[0].kind == k;
    }
  }

  /** Runs the rules for the types `ks`, in that order, collecting the
      finding of each rule that fires. */
  function Apply(s: Signals, ks: seq<RiskType>): (r: seq<Finding>)
    requires RankSorted(ks)
    ensures Canonical(r)
    ensures forall i :: 0 <= i < |r| ==> r[i].kind in ks
    ensures forall k :: HasKind(r, k) <==> k in ks && Fires(s, k)
  {
    if |ks| == 0 then []
    else
      var rest := Apply(s, ks[1..]);
      var r := if Fires(s, ks[0]) then [FindingFor(ks[0])] + rest else rest;
      KindsAfterHead(ks, rest);
      ConsCanonical(ks[0], rest);
      ApplyKinds(s, ks, rest);
      r
  }

  /** The findings for the later types all rank above the first type. */
  lemma KindsAfterHead(ks: seq<RiskType>, rest: seq<Finding>)
    requires RankSorted(ks) && |ks| > 0
    requires forall i :: 0 <= i < |rest| ==> rest[i].kind in ks[1..]
    ensures forall i :: 0 <= i < |rest| ==> Rank(ks[0]) < Rank(rest[i].kind) && rest[i].kind in ks
  {
    forall i | 0 <= i < |rest|
      ensures Rank(ks[0]) < Rank(rest[i].kind) && rest[i].kind in ks
    {
      var j :| 0 <= j < |ks[1..]| && ks[1..][j] == rest[i].kind;
      assert ks[j + 1] == rest[i].kind;
    }
  }

  /** Prepending the finding of a type ranked below all others keeps the run canonical. */
  lemma ConsCanonical(k: RiskType, rest: seq<Finding>)
    requires Canonical(rest)
    requires forall i :: 0 <= i < |rest| ==> Rank(k) < Rank(rest[i].kind)
    ensures Canonical([FindingFor(k)] + rest)
  {
    var r := [FindingFor(k)] + rest;
    forall i | 0 <= i < |r|
      ensures r[i] == FindingFor(r[i].kind)
    {
      if i > 0 {
        assert r[i] == rest[i - 1];
      }
    }
    forall i, j | 0 <= i < j < |r|
      ensures Rank(r[i].kind) < Rank(r[j].kind)
    {
      assert r[j] == rest[j - 1];
      if i > 0 {
        assert r[i] == rest[i - 1];
      }
    }
  }

  /** The types reported after one more rule step are those whose rule fires. */
  lemma ApplyKinds(s: Signals, ks: seq<RiskType>, rest: seq<Finding>)
    requires |ks| > 0
    requires forall i :: 0 <= i < |rest| ==> Rank(ks[0]) < Rank(rest[i].kind)
    requires forall k :: HasKind(rest, k) <==> k in ks[1..] && Fires(s, k)
    ensures var r := if Fires(s, ks[0]) then [FindingFor(ks[0])] + rest else rest;
      forall k :: HasKind(r, k) <==> k in ks && Fires(s, k)
  {
    var r := if Fires(s, ks[0]) then [FindingFor(ks[0])] + rest else rest;
    forall k
      ensures HasKind(r, k) <==> k in ks && Fires(s, k)
    {
      if Fires(s, ks[0]) {
        HasKindCons(FindingFor(ks[0]), rest, k);
      }
      assert k in ks <==> k == ks[0] || k in ks[1..];
      if HasKind(rest, k) {
        var i :| 0 <= i < |rest| && rest[i].kind == k;
        assert k != ks[0];
      }
    }
  }

  /** `check_clause_risks(clause)`: a finding of type `k` is reported exactly
      when the rule for `k` fires on the lower-cased clause; at most one per
      type, in the order of `RuleOrder`. */
  function CheckClauseRisks(clause: string): (r: seq<Finding>)
    ensures Canonical(r)
    ensures forall k :: HasKind(r, k) <==> Fires(SignalsOf(Lower(clause)), k)
  {
    RuleOrderCovers();
    Apply(SignalsOf(Lower(clause)), RuleOrder)
  }

  /** `RuleOrder` lists every risk type, each once, by rank. */
  lemma RuleOrderCovers()
    ensures RankSorted(RuleOrder)
    ensures forall k :: k in RuleOrder
  {
    forall i, j | 0 <= i < j < |RuleOrder|
      ensures Rank(RuleOrder[i]) < Rank(RuleOrder[j])
    {
      assert Rank(RuleOrder[i]) == i && Rank(RuleOrder[j]) == j;
    }
    forall k
      ensures k in RuleOrder
    {
      assert RuleOrder[Rank(k)] == k;
    }
  }

  /** What each rule of `check_clause_risks` looks for, in terms of the clause
      text, and the severity it assigns. */
  lemma RiskConditions(clause: string)
    ensures var r := CheckClauseRisks(clause);
      var lc := Lower(clause);
      && (HasKind(r, Termination) <==> Contains(lc, "termination") && !HasDuration(lc))
      && (HasKind(r, Penalty) <==> Contains(lc, "penalty") && HasPenaltyAmount(lc))
      && (HasKind(r, Arbitration) <==> Contains(lc, "arbitration") && Contains(lc, "sole discretion"))
      && (HasKind(r, Indemnity) <==> HasGovernanceWord(lc) && !Contains(lc, "indemnity"))
      && (HasKind(r, Liability) <==> HasGovernanceWord(lc) && !Contains(lc, "liability"))
      && (HasKind(r, Confidentiality) <==> HasGovernanceWord(lc) && !Contains(lc, "confidentiality"))
      && (forall i :: 0 <= i < |r| ==> (r[i].severity == High <==> r[i].kind == Penalty || r[i].kind == Arbitration))
  {
    var r := CheckClauseRisks(clause);
    var sig := SignalsOf(Lower(clause));
    assert HasKind(r, Termination) <==> Fires(sig, Termination);
    assert HasKind(r, Penalty) <==> Fires(sig, Penalty);
    assert HasKind(r, Arbitration) <==> Fires(sig, Arbitration);
    assert HasKind(r, Indemnity) <==> Fires(sig, Indemnity);
    assert HasKind(r, Liability) <==> Fires(sig, Liability);
    assert HasKind(r, Confidentiality) <==> Fires(sig, Confidentiality);
  }
}
