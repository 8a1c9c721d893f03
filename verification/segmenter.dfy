/**
 The clause segmenter of `legal.py`: the text is stripped, split with
 `re.split(r'(?<=[.;])\s+(?=[A-Z])', ...)`, every piece is stripped again
 and only pieces longer than 20 characters are kept.
 */
module Segmenter {
  import opened Text
  import opened Sequences

  /** The look-behind class `[.;]`. */
  predicate IsClauseEnd(c: char) {
    c == '.' || c == ';'
  }

  /** End of the whitespace run that starts at `i`: the greedy `\s+`. */
  function RunEnd(t: string, i: nat): (j: nat)
    requires i <= |t|
    ensures i <= j <= |t|
    ensures forall k :: i <= k < j ==> IsSpace(t[k])
    ensures j == |t| || !IsSpace(t[j])
  {
    assert forall k :: i <= k < i + LeadingSpace(t[i..]) ==> t[k] == t[i..][..LeadingSpace(t[i..])][k - i];
    i + LeadingSpace(t[i..])
  }

  /** The split pattern matches at `p`: the character before `p` is `.` or `;`,
      a non-empty whitespace run starts at `p`, and an ASCII upper-case letter
      follows the run. The match consumes `t[p..RunEnd(t, p)]`. */
  predicate BoundaryAt(t: string, p: nat) {
    && 0 < p < |t|
    && IsClauseEnd(t[p - 1])
    && IsSpace(t[p])
    && RunEnd(t, p) < |t|
    && IsUpper(t[RunEnd(t, p)])
  }

  /** No match of the split pattern starts in `[lo, hi)`. */
  predicate NoBoundaryIn(t: string, lo: nat, hi: nat) {
    forall p :: lo <= p < hi ==> !BoundaryAt(t, p)
  }

  /** Left-to-right scan of `re.split`: the current piece started at `start`,
      and the pattern has been tried, without success, at `start..i-1`. */
  function SplitFrom(t: string, start: nat, i: nat): (r: seq<string>)
    requires start <= i <= |t|
    ensures |r| >= 1
    decreases |t| - i
  {
    if i == |t| then [t[start..]]
    else if BoundaryAt(t, i) then [t[start..i]] + SplitFrom(t, RunEnd(t, i), RunEnd(t, i))
    else SplitFrom(t, start, i + 1)
  }


  /** `c` sits at offset `o` of `t` and no match of the pattern starts inside it. */
  predicate PieceAt(t: string, c: string, o: nat) {
    o + |c| <= |t| && c == t[o..o + |c|] && NoBoundaryIn(t, o, o + |c|)
  }

  /** The piece `c` at offset `o` is ended by a match of the pattern, and the
      match ends at `next`. */
  predicate CutAfter(t: string, c: string, o: nat, next: nat) {
    BoundaryAt(t, o + |c|) && RunEnd(t, o + |c|) == next
  }

  /** Independent description of a split: `cs[k]` sits at offset `offs[k]` of
      `t`, the first piece starts at `from`, the last one ends at `|t|`,
      consecutive pieces are separated by exactly one match of the pattern
      (cut where it starts, resumed where it ends), and no match starts
      inside a piece. */
  ghost predicate CutAtBoundaries(t: string, from: nat, cs: seq<string>, offs: seq<nat>) {
    && |cs| >= 1
    && |offs| == |cs|
    && offs[0] == from
    && (forall k :: 0 <= k < |cs| ==> PieceAt(t, cs[k], offs[k]))
    && (forall k :: 0 <= k < |cs| - 1 ==> CutAfter(t, cs[k], offs[k], offs[k + 1]))
    && offs[|cs| - 1] + |cs[|cs| - 1]| == |t|
  }

  /** Prepending a placed piece keeps every piece placed. */
  lemma ConsPieces(t: string, c: string, o: nat, rest: seq<string>, restOffs: seq<nat>)
    requires PieceAt(t, c, o) && |restOffs| == |rest|
    requires forall k :: 0 <= k < |rest| ==> PieceAt(t, rest[k], restOffs[k])
    ensures forall k :: 0 <= k < |rest| + 1 ==> PieceAt(t, ([c] + rest)[k], ([o] + restOffs)[k])
  {
    forall k | 1 <= k < |rest| + 1
      ensures PieceAt(t, ([c] + rest)[k], ([o] + restOffs)[k])
    {
      assert ([c] + rest)[k] == rest[k - 1] && ([o] + restOffs)[k] == restOffs[k - 1];
    }
  }

  /** Prepending a piece cut off before the first piece keeps every
      consecutive pair separated by a match. */
  lemma ConsCutsAfter(t: string, c: string, o: nat, rest: seq<string>, restOffs: seq<nat>)
    requires |rest| >= 1 && |restOffs| == |rest| && CutAfter(t, c, o, restOffs[0])
    requires forall k :: 0 <= k < |rest| - 1 ==> CutAfter(t, rest[k], restOffs[k], restOffs[k + 1])
    ensures forall k :: 0 <= k < |rest| ==> CutAfter(t, ([c] + rest)[k], ([o] + restOffs)[k], ([o] + restOffs)[k + 1])
  {
    forall k | 1 <= k < |rest|
      ensures CutAfter(t, ([c] + rest)[k], ([o] + restOffs)[k], ([o] + restOffs)[k + 1])
    {
      assert ([c] + rest)[k] == rest[k - 1];
      assert ([o] + restOffs)[k] == restOffs[k - 1] && ([o] + restOffs)[k + 1] == restOffs[k];
    }
  }

  /** A piece ended by a match, followed by a cut of the rest of the text, is a cut. */
  lemma ConsCut(t: string, start: nat, i: nat, rest: seq<string>, restOffs: seq<nat>)
    requires start <= i < |t| && BoundaryAt(t, i) && NoBoundaryIn(t, start, i)
    requires CutAtBoundaries(t, RunEnd(t, i), rest, restOffs)
    ensures CutAtBoundaries(t, start, [t[start..i]] + rest, [start] + restOffs)
  {
    var c := t[start..i];
    assert PieceAt(t, c, start);
    assert CutAfter(t, c, start, restOffs[0]);
    ConsPieces(t, c, start, rest, restOffs);
    ConsCutsAfter(t, c, start, rest, restOffs);
  }

  /** The scan produces exactly the cut described by `CutAtBoundaries`. */
  lemma {:induction false} SplitFromCuts(t: string, start: nat, i: nat) returns (offs: seq<nat>)
    requires start <= i <= |t|
    requires NoBoundaryIn(t, start, i)
    ensures CutAtBoundaries(t, start, SplitFrom(t, start, i), offs)
    decreases |t| - i
  {
    if i == |t| {
      offs := [start];
      assert PieceAt(t, t[start..], start);
    } else if BoundaryAt(t, i) {
      var e := RunEnd(t, i);
      var restOffs := SplitFromCuts(t, e, e);
      ConsCut(t, start, i, SplitFrom(t, e, e), restOffs);
      offs := [start] + restOffs;
    } else {
      offs := SplitFromCuts(t, start, i + 1);
    }
  }

  /** The pieces of the scan from the start of the text are a cut. */
  lemma SplitIsCut(t: string)
    ensures exists offs :: CutAtBoundaries(t, 0, SplitFrom(t, 0, 0), offs)
  {
    var offs := SplitFromCuts(t, 0, 0);
  }

  /** `re.split(r'(?<=[.;])\s+(?=[A-Z])', t)`: the pieces tile the text,
      separated by the matches of the pattern. */
  function ReSplit(t: string): (r: seq<string>)
    ensures exists offs :: CutAtBoundaries(t, 0, r, offs)
  {
    SplitIsCut(t);
    SplitFrom(t, 0, 0)
  }

  /** `ReSplit` cuts the text at every match of the pattern and nowhere else. */
  lemma ReSplitCuts(t: string) returns (offs: seq<nat>)
    ensures CutAtBoundaries(t, 0, ReSplit(t), offs)
  {
    offs := SplitFromCuts(t, 0, 0);
  }

  /** The stripped copy of every piece, in order. */
  function Stripped(pieces: seq<string>): (r: seq<string>)
    ensures |r| == |pieces|
    ensures forall k :: 0 <= k < |pieces| ==> r[k] == Trim(pieces[k])
  {
    if |pieces| == 0 then [] else [Trim(pieces[0])] + Stripped(pieces[1..])
  }

  /** The comprehension `[s.strip() for s in pieces if len(s.strip()) > 20]`. */
  function KeepClauses(pieces: seq<string>): (r: seq<string>)
    ensures |r| <= |pieces|
    ensures forall k :: 0 <= k < |r| ==> |r[k]| > 20 && IsTrimmed(r[k])
  {
    if |pieces| == 0 then []
    else
      var c := Trim(pieces[0]);
      (if |c| > 20 then [c] else []) + KeepClauses(pieces[1..])
  }

  /** `split_into_clauses(text)`. */
  function SplitIntoClauses(text: string): (r: seq<string>)
    ensures forall k :: 0 <= k < |r| ==> |r[k]| > 20 && IsTrimmed(r[k])
    ensures AllSpace(text) ==> r == []
  {
    KeepClauses(ReSplit(Trim(text)))
  }

  /** `cs[k]` occurs in `t` at offset `offs[k]`, and the occurrences follow
      each other left to right without overlapping. */
  ghost predicate PlacedInOrder(cs: seq<string>, t: string, offs: seq<nat>) {
    && |offs| == |cs|
    && (forall k :: 0 <= k < |cs| ==> OccursAt(t, offs[k], cs[k]))
    && (forall k :: 0 <= k < |cs| - 1 ==> offs[k] + |cs[k]| <= offs[k + 1])
  }

  /** Every piece of a cut occurs in the text, in order. */
  lemma CutIsPlaced(t: string, from: nat, cs: seq<string>, offs: seq<nat>)
    requires CutAtBoundaries(t, from, cs, offs)
    ensures PlacedInOrder(cs, t, offs)
  {
    forall k | 0 <= k < |cs|
      ensures OccursAt(t, offs[k], cs[k])
    {
      assert PieceAt(t, cs[k], offs[k]);
    }
    forall k | 0 <= k < |cs| - 1
      ensures offs[k] + |cs[k]| <= offs[k + 1]
    {
      assert CutAfter(t, cs[k], offs[k], offs[k + 1]);
    }
  }

  /** Prepending a string that ends before every later occurrence keeps a placement. */
  lemma ConsPlaced(c: string, cs: seq<string>, t: string, o: nat, offs: seq<nat>)
    requires OccursAt(t, o, c) && PlacedInOrder(cs, t, offs)
    requires forall k :: 0 <= k < |offs| ==> o + |c| <= offs[k]
    ensures PlacedInOrder([c] + cs, t, [o] + offs)
  {
    var r := [c] + cs;
    var ro := [o] + offs;
    forall k | 1 <= k < |r|
      ensures OccursAt(t, ro[k], r[k])
    {
      assert r[k] == cs[k - 1] && ro[k] == offs[k - 1];
    }
  }

  /** The stripped copy of a string lies inside the string's occurrence. */
  lemma TrimOccurs(t: string, o: nat, p: string)
    requires OccursAt(t, o, p)
    ensures OccursAt(t, o + LeadingSpace(p), Trim(p))
    ensures o + LeadingSpace(p) + |Trim(p)| <= o + |p|
  {
    OccursWithin(t, o, p, LeadingSpace(p), Trim(p));
  }

  /** Dropping the first string of a placement keeps the rest placed. */
  lemma PlacedTail(ps: seq<string>, t: string, offs: seq<nat>)
    requires PlacedInOrder(ps, t, offs) && |ps| > 0
    ensures PlacedInOrder(ps[1..], t, offs[1..])
    ensures |ps| > 1 ==> offs[0] + |ps[0]| <= offs[1]
  {
    forall k | 0 <= k < |ps| - 1
      ensures OccursAt(t, offs[1..][k], ps[1..][k])
    {
      assert OccursAt(t, offs[k + 1], ps[k + 1]);
    }
  }

  /** A string placed after `lo` and ending before `hi`, in front of
      strings placed from `hi` on, gives a placement from `lo` on. */
  lemma PlaceFront(c: string, o: nat, cs: seq<string>, t: string, tailOffs: seq<nat>, lo: nat, hi: nat)
    returns (offs': seq<nat>)
    requires OccursAt(t, o, c) && PlacedInOrder(cs, t, tailOffs)
    requires lo <= o && o + |c| <= hi
    requires forall k :: 0 <= k < |tailOffs| ==> hi <= tailOffs[k]
    ensures PlacedInOrder([c] + cs, t, offs')
    ensures forall k :: 0 <= k < |offs'| ==> lo <= offs'[k]
  {
    ConsPlaced(c, cs, t, o, tailOffs);
    offs' := [o] + tailOffs;
  }

  /** A first piece that is long enough once stripped is kept, in front of
      the survivors of the rest. */
  lemma KeepFirst(ps: seq<string>, t: string, offs: seq<nat>, tailOffs: seq<nat>) returns (offs': seq<nat>)
    requires PlacedInOrder(ps, t, offs) && |ps| > 0 && |Trim(ps[0])| > 20
    requires PlacedInOrder(KeepClauses(ps[1..]), t, tailOffs)
    requires forall k :: 0 <= k < |tailOffs| ==> offs[0] + |ps[0]| <= tailOffs[k]
    ensures PlacedInOrder(KeepClauses(ps), t, offs')
    ensures forall k :: 0 <= k < |offs'| ==> offs[0] <= offs'[k]
  {
    assert OccursAt(t, offs[0], ps[0]);
    TrimOccurs(t, offs[0], ps[0]);
    offs' := PlaceFront(Trim(ps[0]), offs[0] + LeadingSpace(ps[0]), KeepClauses(ps[1..]), t, tailOffs,
      offs[0], offs[0] + |ps[0]|);
    KeepHead(ps);
  }

  /** A first piece long enough once stripped is kept, stripped. */
  lemma KeepHead(ps: seq<string>)
    requires |ps| > 0 && |Trim(ps[0])| > 20
    ensures KeepClauses(ps) == [Trim(ps[0])] + KeepClauses(ps[1..])
  {
  }

  /** Stripping pieces and dropping short ones keeps the survivors in order. */
  lemma {:induction false} KeepClausesPlaced(ps: seq<string>, t: string, offs: seq<nat>) returns (offs': seq<nat>)
    requires PlacedInOrder(ps, t, offs)
    ensures PlacedInOrder(KeepClauses(ps), t, offs')
    ensures |ps| > 0 ==> forall k :: 0 <= k < |offs'| ==> offs[0] <= offs'[k]
  {
    if |ps| == 0 {
      offs' := [];
    } else {
      PlacedTail(ps, t, offs);
      var tailOffs := KeepClausesPlaced(ps[1..], t, offs[1..]);
      if |Trim(ps[0])| > 20 {
        offs' := KeepFirst(ps, t, offs, tailOffs);
      } else {
        assert KeepClauses(ps) == KeepClauses(ps[1..]);
        offs' := tailOffs;
      }
    }
  }

  /** Every clause returned occurs in the input text, in the order returned. */
  lemma ClausesInOrder(text: string) returns (offs: seq<nat>)
    ensures PlacedInOrder(SplitIntoClauses(text), text, offs)
  {
    var s := Trim(text);
    var lo := LeadingSpace(text);
    assert OccursAt(text, lo, s);
    var cutOffs := ReSplitCuts(s);
    CutIsPlaced(s, 0, ReSplit(s), cutOffs);
    var inS := KeepClausesPlaced(ReSplit(s), s, cutOffs);
    offs := seq(|inS|, k requires 0 <= k < |inS| => inS[k] + lo);
    var cs := SplitIntoClauses(text);
    forall k | 0 <= k < |cs|
      ensures OccursAt(text, offs[k], cs[k])
    {
      OccursWithin(text, lo, s, inS[k], cs[k]);
    }
  }

  /** `c` is the stripped copy, longer than 20 characters, of some piece. */
  predicate KeptFrom(ps: seq<string>, c: string) {
    exists k :: 0 <= k < |ps| && c == Trim(ps[k]) && |c| > 20
  }

  /** `KeptFrom` on a non-empty list: the first piece or one of the rest. */
  lemma KeptFromCons(ps: seq<string>, c: string)
    requires |ps| > 0
    ensures KeptFrom(ps, c) <==> (c == Trim(ps[0]) && |c| > 20) || KeptFrom(ps[1..], c)
  {
    if KeptFrom(ps[1..], c) {
      var k :| 0 <= k < |ps[1..]| && c == Trim(ps[1..][k]) && |c| > 20;
      assert ps[k + 1] == ps[1..][k];
    }
    if KeptFrom(ps, c) {
      var k :| 0 <= k < |ps| && c == Trim(ps[k]) && |c| > 20;
      if k > 0 {
        assert ps[1..][k - 1] == ps[k];
      }
    }
  }

  /** Membership in the kept clauses, piece by piece. */
  lemma {:induction false} KeptMembers(ps: seq<string>)
    ensures forall c :: c in KeepClauses(ps) <==> KeptFrom(ps, c)
  {
    if |ps| > 0 {
      KeptMembers(ps[1..]);
      forall c
        ensures c in KeepClauses(ps) <==> KeptFrom(ps, c)
      {
        KeptFromCons(ps, c);
      }
    }
  }

  /** The stripped pieces of a non-empty list: the first one, then those of
      the rest. */
  lemma StrippedCons(ps: seq<string>)
    requires |ps| > 0
    ensures Stripped(ps) == [Trim(ps[0])] + Stripped(ps[1..])
    ensures Stripped(ps)[1..] == Stripped(ps[1..])
  {
  }

  /** The kept clauses are stripped pieces, in piece order. */
  lemma {:induction false} KeptInOrder(ps: seq<string>)
    ensures IsSubsequence(KeepClauses(ps), Stripped(ps))
  {
    if |ps| > 0 {
      KeptInOrder(ps[1..]);
      StrippedCons(ps);
      var rest := KeepClauses(ps[1..]);
      if |Trim(ps[0])| > 20 {
        KeepHead(ps);
        assert KeepClauses(ps)[1..] == rest;
      } else {
        assert KeepClauses(ps) == rest;
      }
    }
  }

  /** Every stripped piece longer than 20 characters is kept as often as it
      occurs, and nothing else is kept. */
  lemma {:induction false} KeptCounts(ps: seq<string>)
    ensures forall c :: multiset(KeepClauses(ps))[c] == if |c| > 20 then multiset(Stripped(ps))[c] else 0
  {
    if |ps| > 0 {
      KeptCounts(ps[1..]);
      StrippedCons(ps);
      var c0 := Trim(ps[0]);
      if |c0| > 20 {
        KeepHead(ps);
      } else {
        assert KeepClauses(ps) == KeepClauses(ps[1..]);
      }
      assert multiset(Stripped(ps)) == multiset{c0} + multiset(Stripped(ps[1..]));
    }
  }

  /** The kept clauses are the stripped pieces longer than 20 characters, in
      piece order and each as often as it occurs: a clause is kept exactly
      when it is the long stripped copy of some piece. */
  lemma KeepClausesMembers(ps: seq<string>)
    ensures forall c :: c in KeepClauses(ps) <==> KeptFrom(ps, c)
    ensures IsSubsequence(KeepClauses(ps), Stripped(ps))
    ensures forall c :: multiset(KeepClauses(ps))[c] == if |c| > 20 then multiset(Stripped(ps))[c] else 0
  {
    KeptMembers(ps);
    KeptInOrder(ps);
    KeptCounts(ps);
  }

  /** Without a match of the pattern from `i` on, the scan returns the rest
      of the text as its last piece. */
  lemma {:induction false} SplitFromWhole(t: string, start: nat, i: nat)
    requires start <= i <= |t| && NoBoundaryIn(t, i, |t|)
    ensures SplitFrom(t, start, i) == [t[start..]]
    decreases |t| - i
  {
    if i < |t| {
      SplitFromWhole(t, start, i + 1);
    }
  }

  /** Text in which the pattern never matches is a single clause, kept when
      it is longer than 20 characters once stripped. */
  lemma SingleClause(text: string)
    requires NoBoundaryIn(Trim(text), 0, |Trim(text)|)
    ensures SplitIntoClauses(text) == if |Trim(text)| > 20 then [Trim(text)] else []
  {
    var s := Trim(text);
    SplitFromWhole(s, 0, 0);
    assert ReSplit(s) == [s];
    TrimTrimmed(s);
    assert KeepClauses([s]) == (if |s| > 20 then [s] else []) + KeepClauses([]);
  }
}
