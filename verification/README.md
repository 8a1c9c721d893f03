# Clause risk analysis of `legal.py`

A Dafny model of the clause-analysis core of the legal risk analyser
`legal.py`. The analyser takes the plain text of a contract and runs it
through four stages:

1. It cuts the text into clauses. `split_into_clauses` strips the text and
   splits it after a `.` or `;` that is followed by whitespace and an
   upper-case letter. It then strips each piece and keeps the pieces longer
   than 20 characters.
2. It runs six heuristic rules on every clause. `check_clause_risks` looks
   for these risk types:
   - Termination: termination without a notice period.
   - Penalty: a penalty with a large amount.
   - Arbitration: arbitration at one party's sole discretion.
   - Indemnity, Liability and Confidentiality: a clause naming a governance
     word but missing one of these three protective terms.
3. It keeps the clauses that drew findings, numbered from 1 by their
   position among all clauses (`analyze_text`).
4. It groups all findings by risk type (`group_risks`), and the report
   shows the entries of each group whose severity the reader selected.

The modules follow these stages:

| module | file | what it holds |
|---|---|---|
| `Sequences` | `sequences.dfy` | order-preserving selection from a list, shared by the clause filter and the severity filter |
| `Text` | `text.dfy` | whitespace as `str.isspace` sees it, ASCII lower-casing, substring search, `str.strip()` |
| `Segmenter` | `segmenter.dfy` | `re.split` with the clause-boundary pattern, modelled as a left-to-right scan, and the length filter |
| `Rules` | `rules.dfy` | findings, the keyword and pattern tests, the four rule groups |
| `RuleProperties` | `rule_properties.dfy` | the pattern tests against the regular expressions, the shape of every findings list, the notice-period property |
| `RuleExamples` | `rule_examples.dfy` | the rules on typical clauses: dollar amounts, a lone governance word |
| `Analysis` | `analysis.dfy` | `analyze_text`, as a function and as the source's loop |
| `Grouping` | `grouping.dfy` | `group_risks`, with the dictionary modelled as a list of groups in key-insertion order |
| `SeverityFilter` | `severity.dfy` | the severity filter and the loop that shows the non-empty filtered groups |

The model is made of values and pure functions. Filtering the groups for
display therefore leaves the grouping itself unchanged, and the export
that follows the report receives the unfiltered grouping.

## Model

| member | source | states |
|---|---|---|
| Text.Lower | legal.py:44 | `lower()` keeps the length and maps every character on its own: an upper-case ASCII letter to its lower-case partner, any other character to itself; `Text.LowerIdempotent` and `Text.LowerAppend` state that it is idempotent and distributes over concatenation |
| Text.Trim | legal.py:39-40 | `strip()` returns the infix of its input left after removing whitespace at both ends: it neither starts nor ends with whitespace, and it is empty exactly when the input is all whitespace |
| Segmenter.ReSplit | legal.py:39 | some placement of the pieces in the text meets the tiling description `CutAtBoundaries` below |
| Segmenter.ReSplitCuts | legal.py:39 | the pieces of `re.split` tile the text: consecutive pieces are separated by exactly one match of the boundary pattern, which is a whitespace run preceded by a `.` or `;` and followed by an upper-case letter, those two characters staying with the pieces; no match starts inside a piece; and the last piece runs to the end, with the offsets of every piece returned |
| Segmenter.KeepClauses | legal.py:40 | the comprehension returns no more strings than it is given, each stripped and longer than 20 characters; `Segmenter.KeepClausesMembers` states which strings, in which order and how often |
| Segmenter.SplitIntoClauses | legal.py:38-40 | every clause is stripped and longer than 20 characters, and whitespace-only text gives no clauses |
| Segmenter.KeepClausesMembers | legal.py:40 | the kept strings are the stripped pieces longer than 20 characters, in piece order and each as often as it occurs: a string is kept exactly when it is the long stripped copy of some piece, the result is a subsequence of the stripped pieces, and each long string occurs in it as often as among the stripped pieces, a short one never |
| Segmenter.ClausesInOrder | legal.py:38-40 | every clause occurs in the input text, and the clauses occur in the order returned without overlapping |
| Segmenter.SingleClause | legal.py:39-40 | text in which the boundary pattern never matches gives one clause when it is longer than 20 characters once stripped, and none otherwise |
| Rules.CheckClauseRisks | legal.py:42-63 | a finding of type `k` is reported exactly when the rule for `k` fires on the lower-cased clause; findings come in rule order, at most one per type, each the fixed finding of its type |
| Rules.RiskConditions | legal.py:44-61 | the condition of each rule in terms of the clause text: termination without a notice period; a penalty with an amount; arbitration with "sole discretion"; and a governance word without "indemnity", "liability" or "confidentiality" |
| RuleProperties.DurationSearch | legal.py:46 | a search for the notice-period pattern (digits, one space, then day, month or year) succeeds exactly when some digit is followed by one space and a unit |
| RuleProperties.PenaltyAmountSearch | legal.py:49 | a search for the amount pattern (a percentage of at least two digits, or a dollar sign and at least three digits) succeeds exactly when two digits precede a `%` or three digits follow a `$` |
| RuleProperties.FindingsShape | legal.py:42-63 | a clause yields at most six findings with distinct types, and the severity is High exactly for Penalty and Arbitration |
| RuleProperties.CanonicalByKinds | legal.py:42-63 | a findings list as the rules emit it is determined by the set of types it holds |
| RuleProperties.CaseInsensitive | legal.py:44 | a clause and its lower-cased copy draw the same findings |
| RuleProperties.NoticePeriodSilencesTermination | legal.py:46-61 | appending the notice period " 30 days" to a clause removes its Termination finding and changes no other finding |
| RuleExamples.DollarAmountFires | legal.py:49-50 | a clause that mentions a penalty and holds "$5000" draws the High penalty finding |
| RuleExamples.FiftyDollarsDoesNotFire | legal.py:49-50 | a clause whose only amount-like text is "$50" draws no penalty finding, whatever else it says |
| RuleExamples.FiveThousandDollarPenalty | legal.py:49-50 | "penalty $5000" draws the penalty finding |
| RuleExamples.FiftyDollarPenalty | legal.py:49-50 | "penalty $50" draws no penalty finding |
| RuleExamples.GovernanceOnlyFindings | legal.py:55-61 | a clause with a governance word and nothing else the rules look for draws exactly the Indemnity, Liability and Confidentiality findings, in that order, all Medium |
| RuleExamples.AgreementAlone | legal.py:55-61 | the clause "agreement" draws exactly the three missing-clause findings |
| RuleExamples.NoIndemnityFindings | legal.py:55-61 | the clause "this agreement has no indemnity." draws exactly the Liability and Confidentiality findings, in that order: the indemnity rule looks only for the word "indemnity", which the clause holds |
| Analysis.AnalyzeText | legal.py:65-72 | the records are numbered from 1 by clause position, strictly increasing; each carries its clause and that clause's non-empty findings; and every clause with findings has a record |
| Analysis.AnalyzeFrom | legal.py:67-71 | the records built from the `i`-th clause on are numbered by their position among all clauses, strictly increasing and above `i`; each carries its clause and that clause's non-empty findings; and every clause from `i` on with findings has a record |
| Analysis.RecordsUnique | legal.py:65-72 | two lists of records that both meet that description are equal, so the description pins down the result |
| Analysis.AnalyzeLoop | legal.py:67-71 | the source's loop over numbered clauses computes exactly the records `AnalyzeFrom` describes |
| Analysis.AnalyzeTextLoop | legal.py:65-72 | `analyze_text` written with its loop returns the same records as `AnalyzeText` |
| Grouping.Insert | legal.py:78-81 | adding an entry keeps the existing keys in place and appends a new key at the end |
| Grouping.InsertLookup | legal.py:78-81 | after adding an entry, the list under its type gains that entry at the end, and every other list is unchanged |
| Grouping.FlattenEntries | legal.py:76-81 | every entry visited comes from a finding of some record, and every finding of every record is visited |
| Grouping.OfKindCounts | legal.py:76-81 | the entries gathered for one type are the visited entries of that type, with their multiplicity |
| Grouping.GroupAllKeys | legal.py:75-82 | the keys are distinct and are exactly the types that occur among the entries |
| Grouping.GroupAllLookup | legal.py:75-82 | the list under each type is the entries of that type, in visiting order |
| Grouping.GroupAllTotal | legal.py:75-82 | the groups hold as many entries as were visited |
| Grouping.GroupAllOrder | legal.py:75-82 | the keys are in order of first appearance |
| Grouping.GroupRisks | legal.py:74-82 | the list under every type is the entries of that type over all findings of all records, in visiting order, and empty for a type that is no key |
| Grouping.GroupRisksKeys | legal.py:74-82 | the keys of `group_risks` are exactly the types of some record's findings, each once, in order of first appearance |
| Grouping.GroupRisksEntries | legal.py:74-82 | each group holds exactly the entries of its type, in visiting order, and is not empty |
| Grouping.GroupRisksTotal | legal.py:74-82 | the number of entries over all groups equals the number of findings over all records |
| Grouping.GroupRisksSorted | legal.py:74-82 | for records in increasing position order, the positions within each group never decrease |
| Grouping.GroupRisksSeverity | legal.py:74-82 | when records carry findings as the rules emit them, every entry of a group has the fixed severity of the group's type |
| SeverityFilter.BySeverity | legal.py:113 | the filtered list keeps its entries in order, holds only entries with a selected severity, and holds every selected entry as often as the group does |
| SeverityFilter.UniformFilter | legal.py:113 | a list whose entries share one severity is kept whole or dropped whole, depending on whether that severity is selected |
| SeverityFilter.BothSeveritiesKeepAll | legal.py:109-113 | with both severities selected, as by default, the filter keeps every entry |
| SeverityFilter.SeverityReport | legal.py:112-114 | the sections shown are, in key order, the groups' filtered lists, and exactly the non-empty ones |
| SeverityFilter.DefaultReportShowsAll | legal.py:109-114 | with both severities selected, the report shows every non-empty group whole, in key order |
| SeverityFilter.UniformReport | legal.py:112-114 | on groups whose entries carry the severity of their type, the report shows exactly the groups whose type has a selected severity, each whole |
| SeverityFilter.AnalysedReport | legal.py:106-114 | on analysed text, the report shows exactly the groups whose type has a selected severity, each whole, in key order |

## Left out

- Text extraction from PDF and DOCX files, the Streamlit page, the preview, the JSON export and the two web front ends are input and output around the core. The model starts from extracted text and ends with the report's sections.
- Lower-casing covers ASCII letters only. Python's `str.lower()` also folds non-ASCII letters, which none of the rule keywords contain.
- `\d` is restricted to ASCII digits. Python's `\d` also matches other Unicode decimal digits.
- Whitespace is the fixed set of characters for which `str.isspace()` holds, which is also what `\s` matches. It is written out as code points.
- The messages are modelled as a function of the risk type (`Rules.MessageOf`), because each rule attaches one fixed message.
- The `s?` at the end of the duration pattern is left out: it cannot change whether a search succeeds.
- Analysis.AnalyzeLoop: takes the findings of every clause as a parameter rather than calling the rules inside the loop. `AnalyzeTextLoop` passes exactly the rules' findings.
- The selected severities are a list of `Severity` values. The multiselect widget that produces them is part of the page.
