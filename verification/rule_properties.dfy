/**
 Properties of the rule engine: how the one-window pattern tests relate to
 the regular expressions they stand for, the shape of every findings list,
 and the behaviour the rules promise on typical clauses.
 */
module RuleProperties {
  import opened Text
  import opened Rules

  // ---------------------------------------------------------------------
  // The regular expressions, written as matches over digit runs.
  // ---------------------------------------------------------------------

  /** Every character of `s[i..j]` is a digit. */
  predicate DigitsIn(s: string, i: nat, j: nat) {
    forall m :: i <= m < j && m < |s| ==> IsDigit(s[m])
  }

  /** `\d+ (day|month|year)` matches `s[i..]`, its digits filling `s[i..j]`. */
  predicate DurationMatch(s: string, i: nat, j: nat) {
    i < j < |s| && DigitsIn(s, i, j) && s[j] == ' ' && UnitAt(s, j + 1)
  }

  /** `\d{2,}%` matches `s[i..j+1]`. */
  predicate PercentMatch(s: string, i: nat, j: nat) {
    i + 2 <= j < |s| && DigitsIn(s, i, j) && s[j] == '%'
  }

  /** `\$\d{3,}` matches `s[i..j]`. */
  predicate DollarMatch(s: string, i: nat, j: nat) {
    i + 4 <= j <= |s| && s[i] == '$' && DigitsIn(s, i + 1, j)
  }

  /** A search for `\d+ (day|month|year)s?` succeeds exactly when some digit
      is followed by one space and a unit. */
  lemma DurationSearch(s: string)
    ensures (exists i: nat, j: nat :: DurationMatch(s, i, j)) <==> HasDuration(s)
  {
    if exists i: nat, j: nat :: DurationMatch(s, i, j) {
      var i: nat, j: nat :| DurationMatch(s, i, j);
      assert DurationAt(s, j - 1);
    }
    if HasDuration(s) {
      var k: nat :| k < |s| && DurationAt(s, k);
      assert DurationMatch(s, k, k + 1);
    }
  }

  /** A search for `\d{2,}%|\$\d{3,}` succeeds exactly when `HasPenaltyAmount` holds. */
  lemma PenaltyAmountSearch(s: string)
    ensures ((exists i: nat, j: nat :: PercentMatch(s, i, j)) || (exists i: nat, j: nat :: DollarMatch(s, i, j)))
            <==> HasPenaltyAmount(s)
  {
    if exists i: nat, j: nat :: PercentMatch(s, i, j) {
      var i: nat, j: nat :| PercentMatch(s, i, j);
      assert PercentAt(s, j - 2);
    }
    if exists i: nat, j: nat :: DollarMatch(s, i, j) {
      var i: nat, j: nat :| DollarMatch(s, i, j);
      assert DollarAt(s, i);
    }
    if exists k: nat | k < |s| :: PercentAt(s, k) {
      var k: nat :| k < |s| && PercentAt(s, k);
      assert PercentMatch(s, k, k + 2);
    }
    if exists k: nat | k < |s| :: DollarAt(s, k) {
      var k: nat :| k < |s| && DollarAt(s, k);
      assert DollarMatch(s, k, k + 4);
    }
  }

  // ---------------------------------------------------------------------
  // Shape of a findings list.
  // ---------------------------------------------------------------------

  /** In a canonical list the `i`-th finding has rank at least `i`. */
  lemma {:induction false} RankAtLeastIndex(r: seq<Finding>, i: nat)
    requires Canonical(r) && i < |r|
    ensures Rank(r[i].kind) >= i
  {
    if i > 0 {
      RankAtLeastIndex(r, i - 1);
    }
  }

  /** A clause yields at most six findings, one per risk type, each with its
      type's fixed severity. */
  lemma FindingsShape(clause: string)
    ensures var r := CheckClauseRisks(clause);
      && |r| <= 6
      && (forall i, j :: 0 <= i < j < |r| ==> r[i].kind != r[j].kind)
      && (forall i :: 0 <= i < |r| ==>
            (r[i].severity == High <==> r[i].kind == Penalty || r[i].kind == Arbitration))
  {
    var r := CheckClauseRisks(clause);
    if |r| > 0 {
      RankAtLeastIndex(r, |r| - 1);
    }
  }

  /** Dropping the first finding of a canonical list leaves a canonical list
      holding every other type of the original. */
  lemma CanonicalTail(r: seq<Finding>)
    requires Canonical(r) && |r| > 0
    ensures Canonical(r[1..])
    ensures forall k :: HasKind(r[1..], k) <==> HasKind(r, k) && k != r[0].kind
  {
    forall k | HasKind(r, k) && k != r[0].kind
      ensures HasKind(r[1..], k)
    {
      var i :| 0 <= i < |r| && r[i].kind == k;
      assert r[1..][i - 1].kind == k;
    }
    forall k | HasKind(r[1..], k)
      ensures HasKind(r, k) && k != r[0].kind
    {
      var i :| 0 <= i < |r[1..]| && r[1..][i].kind == k;
      assert r[i + 1].kind == k;
    }
  }

  /** A canonical findings list is determined by the set of types it holds. */
  lemma {:induction false} CanonicalByKinds(r: seq<Finding>, r': seq<Finding>)
    requires Canonical(r) && Canonical(r')
    requires forall k :: HasKind(r, k) <==> HasKind(r', k)
    ensures r == r'
  {
    if |r| == 0 {
      if |r'| > 0 {
        assert HasKind(r', r'[0].kind);
      }
    } else if |r'| == 0 {
      assert HasKind(r, r[0].kind);
    } else {
      assert HasKind(r, r[0].kind) && HasKind(r', r'[0].kind);
      var i :| 0 <= i < |r| && r[i].kind == r'[0].kind;
      var j :| 0 <= j < |r'| && r'[j].kind == r[0].kind;
      assert r[0].kind == r'[0].kind;
      CanonicalTail(r);
      CanonicalTail(r');
      CanonicalByKinds(r[1..], r'[1..]);
      assert r == [r[0]] + r[1..];
      assert r' == [r'[0]] + r'[1..];
    }
  }

  /** The rules see the clause only through its lower-cased copy. */
  lemma CaseInsensitive(clause: string)
    ensures CheckClauseRisks(Lower(clause)) == CheckClauseRisks(clause)
  {
    LowerIdempotent(clause);
  }

  // ---------------------------------------------------------------------
  // Adding a notice period silences the termination rule, and only it.
  // ---------------------------------------------------------------------

  /** `r` without its findings of type `k`. */
  function Without(r: seq<Finding>, k: RiskType): (r': seq<Finding>)
    ensures |r'| <= |r|
    ensures forall i :: 0 <= i < |r'| ==> r'[i].kind != k
  {
    if |r| == 0 then []
    else (if r[0].kind == k then [] else [r[0]]) + Without(r[1..], k)
  }

  /** When a rule set differs only in that the rule for `k` never fires, its
      findings are the old ones without those of type `k`. */
  lemma {:induction false} ApplySilenced(s: Signals, s': Signals, k: RiskType, ks: seq<RiskType>)
    requires RankSorted(ks)
    requires forall k' :: Fires(s', k') <==> Fires(s, k') && k' != k
    ensures Apply(s', ks) == Without(Apply(s, ks), k)
  {
    if |ks| > 0 {
      ApplySilenced(s, s', k, ks[1..]);
      if Fires(s, ks[0]) {
        var r := Apply(s, ks);
        assert r == [FindingFor(ks[0])] + Apply(s, ks[1..]);
        assert r[1..] == Apply(s, ks[1..]);
      }
    }
  }

  /** An occurrence of `w` in `s + x` that starts inside `s` and ends inside
      `x` lines the first characters of `x` up against the middle of `w`. */
  lemma StraddleChars(s: string, x: string, w: string, k: nat)
    requires OccursAt(s + x, k, w) && k < |s| < k + |w|
    ensures w[|s| - k] == x[0]
    ensures |s| - k + 1 < |w| ==> w[|s| - k + 1] == x[1]
  {
    assert w[|s| - k] == (s + x)[|s|];
    if |s| - k + 1 < |w| {
      assert w[|s| - k + 1] == (s + x)[|s| + 1];
    }
  }

  /** No occurrence of `w` can start before the end of `s` and run into `x`,
      when `w` cannot end with `x[0]` and never contains `x[1]`. */
  lemma ContainsAppend(s: string, x: string, w: string)
    requires |x| >= 2 && |w| > 0
    requires w[|w| - 1] != x[0] && x[1] !in w
    requires |w| > |x| || w[0] !in x
    ensures Contains(s + x, w) <==> Contains(s, w)
  {
    var t := s + x;
    if Contains(t, w) {
      var k: nat :| k <= |t| && OccursAt(t, k, w);
      if k + |w| <= |s| {
        assert t[k..k + |w|] == s[k..k + |w|];
        assert OccursAt(s, k, w);
      } else if k >= |s| {
        assert false;
      } else {
        StraddleChars(s, x, w, k);
        assert false;
      }
    }
    if Contains(s, w) {
      var k: nat :| k <= |s| && OccursAt(s, k, w);
      assert t[k..k + |w|] == s[k..k + |w|];
      assert OccursAt(t, k, w);
    }
  }

  /** The penalty-amount search cannot use text after a non-digit that holds
      neither `%` nor `$`. */
  lemma PenaltyAmountAppend(s: string, x: string)
    requires |x| > 0 && !IsDigit(x[0]) && '%' !in x && '$' !in x
    ensures HasPenaltyAmount(s + x) <==> HasPenaltyAmount(s)
  {
    var t := s + x;
    if exists k: nat | k < |t| :: PercentAt(t, k) {
      var k: nat :| k < |t| && PercentAt(t, k);
      if k + 2 >= |s| {
        assert false;
      }
      assert PercentAt(s, k);
    }
    if exists k: nat | k < |t| :: DollarAt(t, k) {
      var k: nat :| k < |t| && DollarAt(t, k);
      if k >= |s| {
        assert false;
      }
      if k + 3 >= |s| {
        assert false;
      }
      assert DollarAt(s, k);
    }
    if exists k: nat | k < |s| :: PercentAt(s, k) {
      var k: nat :| k < |s| && PercentAt(s, k);
      assert PercentAt(t, k);
    }
    if exists k: nat | k < |s| :: DollarAt(s, k) {
      var k: nat :| k < |s| && DollarAt(s, k);
      assert DollarAt(t, k);
    }
  }

  /** The text appended by `NoticePeriodSilencesTermination`. */
  const NoticePeriod: string := " 30 days"

  /** Appending " 30 days" changes no answer of the rules' own keyword tests. */
  lemma NoticeKeepsRuleWords(lc: string)
    ensures Contains(lc + NoticePeriod, "termination") <==> Contains(lc, "termination")
    ensures Contains(lc + NoticePeriod, "penalty") <==> Contains(lc, "penalty")
    ensures Contains(lc + NoticePeriod, "arbitration") <==> Contains(lc, "arbitration")
    ensures Contains(lc + NoticePeriod, "sole discretion") <==> Contains(lc, "sole discretion")
  {
    ContainsAppend(lc, NoticePeriod, "termination");
    ContainsAppend(lc, NoticePeriod, "penalty");
    ContainsAppend(lc, NoticePeriod, "arbitration");
    ContainsAppend(lc, NoticePeriod, "sole discretion");
  }

  /** Appending " 30 days" changes none of the governance-word tests. */
  lemma NoticeKeepsGovernance(lc: string)
    ensures HasGovernanceWord(lc + NoticePeriod) <==> HasGovernanceWord(lc)
  {
    ContainsAppend(lc, NoticePeriod, "agreement");
    ContainsAppend(lc, NoticePeriod, "obligation");
    ContainsAppend(lc, NoticePeriod, "responsibility");
    ContainsAppend(lc, NoticePeriod, "party");
    ContainsAppend(lc, NoticePeriod, "condition");
  }

  /** Appending " 30 days" changes none of the tests for a protective term. */
  lemma NoticeKeepsTerms(lc: string)
    ensures Contains(lc + NoticePeriod, "indemnity") <==> Contains(lc, "indemnity")
    ensures Contains(lc + NoticePeriod, "liability") <==> Contains(lc, "liability")
    ensures Contains(lc + NoticePeriod, "confidentiality") <==> Contains(lc, "confidentiality")
  {
    ContainsAppend(lc, NoticePeriod, "indemnity");
    ContainsAppend(lc, NoticePeriod, "liability");
    ContainsAppend(lc, NoticePeriod, "confidentiality");
  }

  /** After " 30 days" is appended, the clause has a notice period. */
  lemma NoticeIsDuration(lc: string)
    ensures HasDuration(lc + NoticePeriod)
  {
    var lc' := lc + NoticePeriod;
    assert DurationAt(lc', |lc| + 2) by {
      assert lc'[|lc| + 4..|lc| + 7] == "day";
    }
  }

  /** After " 30 days" is appended, the clause has a notice period and every
      other test gives the same answer as before. */
  lemma SignalsAfterNoticePeriod(lc: string)
    ensures SignalsOf(lc + NoticePeriod) == SignalsOf(lc).(duration := true)
  {
    NoticeKeepsRuleWords(lc);
    NoticeKeepsGovernance(lc);
    NoticeKeepsTerms(lc);
    NoticeIsDuration(lc);
    PenaltyAmountAppend(lc, NoticePeriod);
  }

  /** Lower-casing leaves an appended " 30 days" as it is. */
  lemma NoticeIsLower(clause: string)
    ensures Lower(clause + NoticePeriod) == Lower(clause) + NoticePeriod
  {
    LowerAppend(clause, NoticePeriod);
    LowerKeepsLower(NoticePeriod);
  }

  /** A notice period switches off the termination rule and no other. */
  lemma DurationSilencesTermination(s: Signals)
    ensures forall k :: Fires(s.(duration := true), k) <==> Fires(s, k) && k != Termination
  {
  }

  /** Appending " 30 days" to a clause removes its Termination finding, if it
      had one, and leaves every other finding as it was. */
  lemma NoticePeriodSilencesTermination(clause: string)
    ensures CheckClauseRisks(clause + NoticePeriod) == Without(CheckClauseRisks(clause), Termination)
  {
    var lc := Lower(clause);
    NoticeIsLower(clause);
    var s := SignalsOf(lc);
    SignalsAfterNoticePeriod(lc);
    DurationSilencesTermination(s);
    ApplySilenced(s, s.(duration := true), Termination, RuleOrder);
  }
}
