/**
 The rules on typical clauses: a penalty with a four-digit dollar amount is
 reported and one with a two-digit amount is not, and a clause that names a
 governance word but none of the protective terms draws all three
 missing-clause findings.
 */
module RuleExamples {
  import opened Text
  import opened Rules
  import opened RuleProperties

  // ---------------------------------------------------------------------
  // Tools for deciding the keyword and pattern tests on concrete text.
  // ---------------------------------------------------------------------

  /** Every character of an occurrence of `w` occurs in `s`. */
  lemma CharOfOccurrence(s: string, w: string, k: nat, i: nat)
    requires OccursAt(s, k, w) && i < |w|
    ensures w[i] in s
  {
    assert s[k + i] == w[i];
  }

  /** `w` does not occur in `s` when its `i`-th character does not. */
  lemma CharAbsent(s: string, w: string, i: nat)
    requires i < |w| && w[i] !in s
    ensures !Contains(s, w)
  {
    forall k: nat | k <= |s|
      ensures !OccursAt(s, k, w)
    {
      if OccursAt(s, k, w) {
        CharOfOccurrence(s, w, k, i);
      }
    }
  }

  /** Without digits there is no notice period and no penalty amount. */
  lemma NoDigits(s: string)
    requires forall i :: 0 <= i < |s| ==> !IsDigit(s[i])
    ensures !HasDuration(s) && !HasPenaltyAmount(s)
  {
  }

  /** Lower-casing adds no character outside `a`..`z`. */
  lemma LowerAbsent(s: string, c: char)
    requires c !in s && !('a' <= c <= 'z')
    ensures c !in Lower(s)
  {
    forall i | 0 <= i < |s|
      ensures Lower(s)[i] != c
    {
      assert s[i] != c;
    }
  }

  // ---------------------------------------------------------------------
  // The penalty rule and the size of the amount.
  // ---------------------------------------------------------------------

  /** "$5000" is already lower case. */
  lemma FiveThousandIsLower()
    ensures Lower("$5000") == "$5000"
  {
    LowerKeepsLower("$5000");
  }

  /** An occurrence of "$5000" starts a dollar amount. */
  lemma FiveThousandAt(s: string, k: nat)
    requires OccursAt(s, k, "$5000")
    ensures DollarAt(s, k)
  {
    var w := s[k..k + 5];
    assert s[k] == w[0] && s[k + 1] == w[1] && s[k + 2] == w[2] && s[k + 3] == w[3];
  }

  /** "$5000" anywhere in a clause is a penalty amount. */
  lemma FiveThousandIsAmount(clause: string)
    requires Contains(clause, "$5000")
    ensures HasPenaltyAmount(Lower(clause))
  {
    var k: nat :| k <= |clause| && OccursAt(clause, k, "$5000");
    LowerOccurs(clause, k, "$5000");
    FiveThousandIsLower();
    FiveThousandAt(Lower(clause), k);
  }

  /** A clause that mentions a penalty and holds "$5000" is reported as a
      High penalty risk. */
  lemma DollarAmountFires(clause: string)
    requires Contains(Lower(clause), "penalty") && Contains(clause, "$5000")
    ensures FindingFor(Penalty) in CheckClauseRisks(clause)
    ensures FindingFor(Penalty).severity == High
  {
    FiveThousandIsAmount(clause);
    var r := CheckClauseRisks(clause);
    assert Fires(SignalsOf(Lower(clause)), Penalty);
    var i :| 0 <= i < |r| && r[i].kind == Penalty;
    assert r[i] == FindingFor(Penalty);
  }

  /** "$50" between text without `$` or `%` that does not continue the
      number is no penalty amount: the pattern wants three digits. */
  lemma FiftyDollarsIsNoAmount(a: string, b: string)
    requires '$' !in a && '$' !in b && '%' !in a && '%' !in b
    requires |b| == 0 || !IsDigit(b[0])
    ensures !HasPenaltyAmount(a + "$50" + b)
  {
    var t := a + "$50" + b;
    forall i | 0 <= i < |t|
      ensures t[i] != '%'
      ensures t[i] == '$' ==> i == |a|
    {
      if i < |a| {
        assert t[i] == a[i];
      } else if i >= |a| + 3 {
        assert t[i] == b[i - |a| - 3];
      }
    }
    if |b| > 0 {
      assert t[|a| + 3] == b[0];
    }
  }

  /** A clause with "$50" as its only amount-like text draws no penalty
      finding, whatever else it says. */
  lemma FiftyDollarsDoesNotFire(a: string, b: string)
    requires '$' !in a && '$' !in b && '%' !in a && '%' !in b
    requires |b| == 0 || !IsDigit(b[0])
    ensures !HasKind(CheckClauseRisks(a + "$50" + b), Penalty)
  {
    LowerAppend(a + "$50", b);
    LowerAppend(a, "$50");
    LowerKeepsLower("$50");
    LowerAbsent(a, '$');
    LowerAbsent(a, '%');
    LowerAbsent(b, '$');
    LowerAbsent(b, '%');
    FiftyDollarsIsNoAmount(Lower(a), Lower(b));
  }

  // ---------------------------------------------------------------------
  // Concrete clauses.
  // ---------------------------------------------------------------------

  /** The keyword tests of the rules on the text "agreement". */
  lemma AgreementRuleWords()
    ensures !Contains("agreement", "termination") && !Contains("agreement", "penalty")
    ensures !Contains("agreement", "arbitration") && !Contains("agreement", "sole discretion")
  {
    CharAbsent("agreement", "termination", 4);
    CharAbsent("agreement", "penalty", 0);
    CharAbsent("agreement", "arbitration", 2);
    CharAbsent("agreement", "sole discretion", 0);
  }

  /** The missing-clause tests on the text "agreement". */
  lemma AgreementTerms()
    ensures !Contains("agreement", "indemnity") && !Contains("agreement", "liability")
    ensures !Contains("agreement", "confidentiality")
    ensures HasGovernanceWord("agreement")
  {
    CharAbsent("agreement", "indemnity", 0);
    CharAbsent("agreement", "liability", 0);
    CharAbsent("agreement", "confidentiality", 0);
    assert OccursAt("agreement", 0, "agreement");
  }

  /** The clause "agreement" sets only the governance signal. */
  lemma AgreementSignals()
    ensures SignalsOf("agreement") == GovernanceOnly
  {
    AgreementRuleWords();
    AgreementTerms();
    NoDigits("agreement");
  }

  /** The signals of a clause that names a governance word and nothing else
      the rules look for. */
  const GovernanceOnly := Signals(false, false, false, false, false, false, true, false, false, false)

  /** The findings reported when only the governance signal is set. */
  const MissingTermFindings := [FindingFor(Indemnity), FindingFor(Liability), FindingFor(Confidentiality)]

  /** `MissingTermFindings` is canonical and holds exactly the three
      missing-clause types. */
  lemma MissingTermFindingsShape()
    ensures Canonical(MissingTermFindings)
    ensures forall k :: HasKind(MissingTermFindings, k) <==> k == Indemnity || k == Liability || k == Confidentiality
  {
    var e := MissingTermFindings;
    assert e[0].kind == Indemnity && e[1].kind == Liability && e[2].kind == Confidentiality;
  }

  /** With only the governance signal set, exactly the three missing-clause
      rules fire. */
  lemma GovernanceOnlyKinds(clause: string)
    requires SignalsOf(Lower(clause)) == GovernanceOnly
    ensures forall k :: HasKind(CheckClauseRisks(clause), k) <==> k == Indemnity || k == Liability || k == Confidentiality
  {
  }

  /** A clause that names a governance word and nothing else the rules look
      for draws the three missing-clause findings, all Medium, in the order
      Indemnity, Liability, Confidentiality. */
  lemma GovernanceOnlyFindings(clause: string)
    requires SignalsOf(Lower(clause)) == GovernanceOnly
    ensures CheckClauseRisks(clause) == MissingTermFindings
    ensures forall i :: 0 <= i < |CheckClauseRisks(clause)| ==> CheckClauseRisks(clause)[i].severity == Medium
  {
    MissingTermFindingsShape();
    GovernanceOnlyKinds(clause);
    CanonicalByKinds(CheckClauseRisks(clause), MissingTermFindings);
  }

  /** "agreement" is already lower case. */
  lemma AgreementIsLower()
    ensures Lower("agreement") == "agreement"
  {
    LowerKeepsLower("agreement");
  }

  /** "agreement" on its own draws the three missing-clause findings. */
  lemma AgreementAlone()
    ensures CheckClauseRisks("agreement") == MissingTermFindings
  {
    AgreementIsLower();
    AgreementSignals();
    GovernanceOnlyFindings("agreement");
  }

  /** "penalty $5000" is already lower case. */
  lemma PenaltyTextIsLower()
    ensures Lower("penalty $5000") == "penalty $5000"
  {
    LowerKeepsLower("penalty $5000");
  }

  /** "penalty $5000" names a penalty and holds "$5000". */
  lemma PenaltyTextTests()
    ensures Contains("penalty $5000", "penalty") && Contains("penalty $5000", "$5000")
  {
    assert OccursAt("penalty $5000", 0, "penalty");
    assert OccursAt("penalty $5000", 8, "$5000");
  }

  /** A penalty of $5000 is a High penalty risk. */
  lemma FiveThousandDollarPenalty()
    ensures FindingFor(Penalty) in CheckClauseRisks("penalty $5000")
  {
    PenaltyTextIsLower();
    PenaltyTextTests();
    DollarAmountFires("penalty $5000");
  }

  /** A penalty of $50 is no penalty risk: the amount is too short for the
      pattern. */
  lemma FiftyDollarPenalty()
    ensures !HasKind(CheckClauseRisks("penalty $50"), Penalty)
  {
    FiftyDollarsDoesNotFire("penalty ", "");
    assert "penalty " + "$50" + "" == "penalty $50";
  }

  // ---------------------------------------------------------------------
  // A clause that names the term a missing-clause rule looks for.
  // ---------------------------------------------------------------------

  /** When `c` occurs in `a + [c] + b` only between `a` and `b`, an occurrence
      of `w` puts its `i`-th character, a `c`, there. */
  lemma SoleChar(a: string, c: char, b: string, w: string, i: nat)
    requires i < |w| && w[i] == c && c !in a && c !in b
    ensures forall k: nat :: OccursAt(a + [c] + b, k, w) ==> k + i == |a|
  {
    var t := a + [c] + b;
    forall j | 0 <= j < |t| && j != |a|
      ensures t[j] != c
    {
      if j < |a| {
        assert t[j] == a[j];
      } else {
        assert t[j] == b[j - |a| - 1];
      }
    }
    forall k: nat | OccursAt(t, k, w)
      ensures k + i == |a|
    {
      assert t[k + i] == t[k..k + |w|][i];
    }
  }

  /** `w` occurs in `a + w + b` right after `a`. */
  lemma OccursBetween(a: string, w: string, b: string)
    ensures OccursAt(a + w + b, |a|, w)
  {
    assert (a + w + b)[|a|..|a| + |w|] == w;
  }

  /** A governance clause that names indemnity. */
  const NoIndemnityClause := "this agreement has no indemnity."

  /** The clause around its one `r`. */
  lemma NoIndemnityAroundR()
    ensures NoIndemnityClause == "this ag" + ['r'] + "eement has no indemnity."
    ensures 'r' !in "this ag" && 'r' !in "eement has no indemnity."
  {
  }

  /** "termination" is not in the clause: its one `r` would have to be the
      third letter of an occurrence starting at "agreement"'s `a`. */
  lemma NoIndemnityNoTermination()
    ensures !Contains(NoIndemnityClause, "termination")
  {
    var a, b := "this ag", "eement has no indemnity.";
    NoIndemnityAroundR();
    SoleChar(a, 'r', b, "termination", 2);
    forall k: nat | k <= |NoIndemnityClause|
      ensures !OccursAt(NoIndemnityClause, k, "termination")
    {
      if k == 5 {
        assert NoIndemnityClause[5] != "termination"[0];
      }
    }
  }

  /** Neither "penalty" nor "arbitration" is in the clause. */
  lemma NoIndemnityRuleWords()
    ensures !Contains(NoIndemnityClause, "penalty") && !Contains(NoIndemnityClause, "arbitration")
  {
    CharAbsent(NoIndemnityClause, "penalty", 0);
    CharAbsent(NoIndemnityClause, "arbitration", 2);
  }

  /** "sole discretion" is not in the clause. */
  lemma NoIndemnityDiscretion()
    ensures !Contains(NoIndemnityClause, "sole discretion")
  {
    CharAbsent(NoIndemnityClause, "sole discretion", 2);
  }

  /** Neither "liability" nor "confidentiality" is in the clause. */
  lemma NoIndemnityMissingTerms()
    ensures !Contains(NoIndemnityClause, "liability") && !Contains(NoIndemnityClause, "confidentiality")
  {
    CharAbsent(NoIndemnityClause, "liability", 0);
    CharAbsent(NoIndemnityClause, "confidentiality", 0);
  }

  /** The clause names an agreement and names indemnity. */
  lemma NoIndemnityWordsFound()
    ensures Contains(NoIndemnityClause, "agreement") && Contains(NoIndemnityClause, "indemnity")
  {
    var a, b := "this ", " has no indemnity.";
    assert NoIndemnityClause == a + "agreement" + b;
    OccursBetween(a, "agreement", b);
    var c, d := "this agreement has no ", ".";
    assert NoIndemnityClause == c + "indemnity" + d;
    OccursBetween(c, "indemnity", d);
  }

  /** The clause has a governance word. */
  lemma NoIndemnityGovernance()
    ensures HasGovernanceWord(NoIndemnityClause)
  {
    NoIndemnityWordsFound();
  }

  /** The signals of a governance clause that names indemnity and nothing
      else the rules look for. */
  const IndemnityNamed := Signals(false, false, false, false, false, false, true, true, false, false)

  /** The clause sets the governance and indemnity signals only. */
  lemma NoIndemnitySignals()
    ensures SignalsOf(NoIndemnityClause) == IndemnityNamed
  {
    NoIndemnityNoTermination();
    NoIndemnityRuleWords();
    NoIndemnityDiscretion();
    NoIndemnityMissingTerms();
    NoIndemnityGovernance();
    NoIndemnityWordsFound();
    NoDigits(NoIndemnityClause);
  }

  /** The clause is already lower case. */
  lemma NoIndemnityIsLower()
    ensures Lower(NoIndemnityClause) == NoIndemnityClause
  {
    LowerKeepsLower(NoIndemnityClause);
  }

  /** The findings of the Liability and Confidentiality rules, in rule order. */
  const LiabilityConfidentiality := [FindingFor(Liability), FindingFor(Confidentiality)]

  /** `LiabilityConfidentiality` is canonical and holds exactly its two types. */
  lemma LiabilityConfidentialityShape()
    ensures Canonical(LiabilityConfidentiality)
    ensures forall k :: HasKind(LiabilityConfidentiality, k) <==> k == Liability || k == Confidentiality
  {
    var e := LiabilityConfidentiality;
    assert e[0].kind == Liability && e[1].kind == Confidentiality;
  }

  /** A governance clause that names indemnity and nothing else the rules
      look for draws the Liability and Confidentiality findings only. */
  lemma IndemnityNamedFindings(clause: string)
    requires SignalsOf(Lower(clause)) == IndemnityNamed
    ensures CheckClauseRisks(clause) == LiabilityConfidentiality
  {
    LiabilityConfidentialityShape();
    IndemnityNamedKinds(clause);
    CanonicalByKinds(CheckClauseRisks(clause), LiabilityConfidentiality);
  }

  /** With the governance and indemnity signals set, exactly the Liability and
      Confidentiality rules fire. */
  lemma IndemnityNamedKinds(clause: string)
    requires SignalsOf(Lower(clause)) == IndemnityNamed
    ensures forall k :: HasKind(CheckClauseRisks(clause), k) <==> k == Liability || k == Confidentiality
  {
  }

  /** "this agreement has no indemnity." draws the Liability and
      Confidentiality findings and no Indemnity finding: the missing-clause
      rule for indemnity looks only for the word, which the clause holds. */
  lemma NoIndemnityFindings()
    ensures CheckClauseRisks(NoIndemnityClause) == [FindingFor(Liability), FindingFor(Confidentiality)]
  {
    NoIndemnityIsLower();
    NoIndemnitySignals();
    IndemnityNamedFindings(NoIndemnityClause);
  }
}
