/** What `recommend` promises about its flags, its records and its ranking. */
module RecommendProps {
  import opened Wrappers
  import opened PyStrings
  import opened Dicts
  import opened Seqs
  import opened Eligibility
  import opened Department
  import opened Recommend

  // ---------------------------------------------------------------- signal and confidence

  /** The first of the top scores is the highest interest score of all fields. */
  lemma TopIsMax(scores: seq<(string, real)>)
    requires |scores| > 0
    ensures var top := TopScores(scores);
      && (exists i :: 0 <= i < |scores| && scores[i].1 == top[0])
      && (forall i :: 0 <= i < |scores| ==> scores[i].1 <= top[0])
      && (forall k :: 0 <= k < |top| ==> top[k] <= top[0])
  {
    var vs := Values(scores);
    var sorted := SortDesc(vs, RealKey);
    var top := TopScores(scores);
    assert top[0] == sorted[0];
    forall k | 0 <= k < |top|
      ensures top[k] <= top[0]
    {
      assert top[k] == sorted[k];
    }
    forall i | 0 <= i < |scores|
      ensures scores[i].1 <= top[0]
    {
      assert vs[i] == scores[i].1;
      SortedHeadIsMax(vs, RealKey, vs[i]);
    }
    assert sorted[0] in multiset(vs) by {
      assert sorted[0] in multiset(sorted);
    }
    var j :| 0 <= j < |vs| && vs[j] == sorted[0];
  }

  lemma {:induction false} SumAtMost(xs: seq<real>, m: real)
    requires forall k :: 0 <= k < |xs| ==> xs[k] <= m
    ensures Sum(xs) <= (|xs| as real) * m
    decreases |xs|
  {
    if |xs| > 0 {
      SumAtMost(xs[..|xs| - 1], m);
    }
  }

  /** An average above `x` of values bounded by `m` puts `m` above `x`. */
  lemma AverageBelowBound(xs: seq<real>, m: real, x: real)
    requires |xs| > 0 && forall k :: 0 <= k < |xs| ==> xs[k] <= m
    requires Sum(xs) / (|xs| as real) > x
    ensures m > x
  {
    var n := |xs| as real;
    var s := Sum(xs);
    SumAtMost(xs, m);
    DivAbove(s, n, x);
    assert n * m > n * x;
  }

  lemma DivAbove(s: real, n: real, x: real)
    requires n > 0.0 && s / n > x
    ensures s > x * n
  {
    assert s == (s / n) * n;
  }

  /** The signal is low exactly when every field scores below 0.15; the call is mixed exactly
      when there are two fields or more and the two highest scores are less than 0.05 apart;
      confidence is Low exactly on a low signal, and High exactly when the signal is not low and
      the mean of the (up to) three highest scores exceeds 0.4, which needs some field above
      0.4. `sig.top` is those highest scores, as TopScores states. */
  lemma SignalFacts(scores: seq<(string, real)>)
    requires |scores| > 0
    ensures var sig := SignalOf(scores);
      && sig.top == TopScores(scores)
      && (sig.isLowSignal <==> forall i :: 0 <= i < |scores| ==> scores[i].1 < 0.15)
      && (sig.isMixed <==> |scores| > 1 && sig.top[0] - sig.top[1] < 0.05)
      && (sig.confidence == Low <==> sig.isLowSignal)
      && (sig.confidence == High <==> !sig.isLowSignal && Sum(sig.top) / (|sig.top| as real) > 0.4)
      && (sig.confidence == High ==> exists i :: 0 <= i < |scores| && scores[i].1 > 0.4)
  {
    var top := TopScores(scores);
    TopIsMax(scores);
    if SignalOf(scores).confidence == High {
      AverageBelowBound(top, top[0], 0.4);
    }
  }

  // ---------------------------------------------------------------- one record

  lemma RatioAtMostOne(a: real, b: real)
    requires 0.0 <= a <= b && b > 0.0
    ensures 0.0 <= a / b <= 1.0
    ensures a == 0.0 ==> a / b == 0.0
    ensures a == b ==> a / b == 1.0
  {
    assert a / b * b == a;
  }

  /** The blend is the sum of its two contributions, weighted (0.3, 0.7) under a low signal
      and by the caller's alpha and beta otherwise. */
  lemma BlendFacts(lowSignal: bool, alpha: real, beta: real, interest: real, demand: real)
    ensures var b := BlendOf(lowSignal, alpha, beta, interest, demand);
      && b.finalScore == b.interestContribution + b.marketContribution
      && (lowSignal ==> b.interestContribution == 0.3 * interest && b.marketContribution == 0.7 * demand)
      && (!lowSignal ==> b.interestContribution == alpha * interest && b.marketContribution == beta * demand)
  {
  }

  /** The field's job count never exceeds the busiest field's. */
  lemma JobCountAtMostMax(demand: seq<(string, nat)>, dept: string)
    ensures JobCount(demand, dept) <= MaxDemand(demand)
  {
    var key := GetOr(DemandMapping, dept, dept);
    var r := Get(demand, key);
    if r.Some? {
      var i :| 0 <= i < |demand| && demand[i] == (key, r.value);
    }
  }

  /** The demand score is the field's share of the busiest field's job count: between 0 and
      1, 1 for the busiest field, 0 for a field the demand table does not list. */
  lemma DemandScoreRange(demand: seq<(string, nat)>, dept: string)
    ensures 0.0 <= DemandScore(demand, dept) <= 1.0
    ensures JobCount(demand, dept) == 0 ==> DemandScore(demand, dept) == 0.0
    ensures 0 < MaxDemand(demand) == JobCount(demand, dept) ==> DemandScore(demand, dept) == 1.0
  {
    var m := MaxDemand(demand);
    var jobs := JobCount(demand, dept);
    JobCountAtMostMax(demand, dept);
    if m > 0 {
      RatioAtMostOne(jobs as real, m as real);
    }
  }

  /** The scores of a regular record: its own interest, the field's demand score, and the
      blend of the two under the call's signal and weights (see `BlendFacts`). */
  lemma FieldRecordScores(c: Setting, dept: string, interest: real)
    ensures var r := FieldRecord(c, dept, interest);
      var b := BlendOf(c.signal.isLowSignal, c.alpha, c.beta, interest, r.demandScore);
      && r.dept == dept && r.interestScore == interest
      && r.demandScore == DemandScore(c.tables.demand, dept) && 0.0 <= r.demandScore <= 1.0
      && r.jobCount == JobCount(c.tables.demand, dept)
      && r.finalScore == b.finalScore && r.interestContribution == b.interestContribution
      && r.marketContribution == b.marketContribution
  {
    DemandScoreRange(c.tables.demand, dept);
  }

  /** The flags and the department verdict of a regular record: the confidence and flags are
      the call's, the verdict is the one of the programmes the skill map lists for the field,
      and a caller's alpha above 0.8 always reads as passion first, even when a low signal
      replaced the weights. */
  lemma FieldRecordVerdict(c: Setting, dept: string, interest: real)
    ensures var r := FieldRecord(c, dept, interest);
      && r.confidence == c.signal.confidence && r.isMixed == c.signal.isMixed && r.isLowSignal == c.signal.isLowSignal
      && r.universityMapping.Some?
      && r.programs == EntryPrograms(c.tables.skillMap, LookupDept(c.tables.skillMap, dept))
      && r.deptStatus == DeptStatusOf(c.tables.requirements, r.programs, dept, c.kcse)
      && r.eligibility == EligibilityMapOf(c.tables.requirements, r.programs, dept, c.kcse)
      && (c.alpha > 0.8 ==> r.whyBest == PassionFirst)
  {
  }

  // ---------------------------------------------------------------- the main loop

  /** A record of the main loop comes from a field that reached the threshold. */
  lemma {:induction false} MainWitness(c: Setting, scores: seq<(string, real)>, r: Record) returns (i: nat)
    requires r in MainRecords(c, scores)
    ensures i < |scores| && scores[i].1 >= Threshold(c.signal.isLowSignal) && r == FieldRecord(c, scores[i].0, scores[i].1)
    decreases |scores|
  {
    var init := scores[..|scores| - 1];
    var last := scores[|scores| - 1];
    var extra := if last.1 < Threshold(c.signal.isLowSignal) then [] else [FieldRecord(c, last.0, last.1)];
    assert MainRecords(c, scores) == MainRecords(c, init) + extra;
    if r in MainRecords(c, init) {
      i := MainWitness(c, init, r);
      assert init[i] == scores[i];
    } else {
      i := |scores| - 1;
    }
  }

  /** Every field that reaches the threshold has its record in the main loop's output. */
  lemma {:induction false} MainFromPass(c: Setting, scores: seq<(string, real)>, i: nat)
    requires i < |scores| && scores[i].1 >= Threshold(c.signal.isLowSignal)
    ensures FieldRecord(c, scores[i].0, scores[i].1) in MainRecords(c, scores)
    decreases |scores|
  {
    var init := scores[..|scores| - 1];
    var last := scores[|scores| - 1];
    var extra := if last.1 < Threshold(c.signal.isLowSignal) then [] else [FieldRecord(c, last.0, last.1)];
    assert MainRecords(c, scores) == MainRecords(c, init) + extra;
    if i < |init| {
      assert init[i] == scores[i];
      MainFromPass(c, init, i);
    } else {
      assert last == scores[i];
    }
  }

  /** The main loop keeps exactly the fields whose interest reaches the threshold, each with
      its own record. */
  lemma MainRecordsMembers(c: Setting, scores: seq<(string, real)>, r: Record)
    ensures r in MainRecords(c, scores) <==>
      exists i :: 0 <= i < |scores| && scores[i].1 >= Threshold(c.signal.isLowSignal) && r == FieldRecord(c, scores[i].0, scores[i].1)
  {
    if r in MainRecords(c, scores) {
      var i := MainWitness(c, scores, r);
    }
    forall i | 0 <= i < |scores| && scores[i].1 >= Threshold(c.signal.isLowSignal) && r == FieldRecord(c, scores[i].0, scores[i].1)
      ensures r in MainRecords(c, scores)
    {
      MainFromPass(c, scores, i);
    }
  }

  /** The fallback is taken exactly when no field reaches the threshold. */
  lemma {:induction false} MainRecordsEmpty(c: Setting, scores: seq<(string, real)>)
    ensures |MainRecords(c, scores)| == 0 <==> forall i :: 0 <= i < |scores| ==> scores[i].1 < Threshold(c.signal.isLowSignal)
    decreases |scores|
  {
    if |scores| > 0 {
      var init := scores[..|scores| - 1];
      MainRecordsEmpty(c, init);
      assert forall i :: 0 <= i < |init| ==> init[i] == scores[i];
    }
  }

  // ---------------------------------------------------------------- the fallback

  /** A fallback record scores by interest alone: final score and interest contribution are
      the interest, demand and market contribution are 0, confidence is Low and both flags are
      set; it carries no university mapping, and its verdict is the one of the programmes listed
      under the mapped key, without the second "IT" lookup of the regular records. */
  lemma FallbackRecordFacts(c: Setting, dept: string, interest: real)
    ensures var r := FallbackRecord(c, dept, interest);
      && r.dept == dept && r.interestScore == interest
      && r.finalScore == interest && r.interestContribution == interest
      && r.demandScore == 0.0 && r.marketContribution == 0.0
      && r.confidence == Low && r.isMixed && r.isLowSignal && r.universityMapping.None?
      && r.programs == EntryPrograms(c.tables.skillMap, GetOr(DeptMapping, dept, dept))
      && r.deptStatus == DeptStatusOf(c.tables.requirements, r.programs, dept, c.kcse)
  {
  }

  lemma {:induction false} FallbackRecordsAt(c: Setting, items: seq<(string, real)>, k: nat)
    requires k < |items|
    ensures FallbackRecords(c, items)[k] == FallbackRecord(c, items[k].0, items[k].1)
    decreases |items|
  {
    if k < |items| - 1 {
      FallbackRecordsAt(c, items[..|items| - 1], k);
    }
  }

  /** When no field reaches the threshold the candidates are the fallback records of the (up
      to) three fields of highest interest, the first of them for the highest interest of all. */
  lemma FallbackCandidates(c: Setting, scores: seq<(string, real)>)
    requires |scores| > 0
    requires forall i :: 0 <= i < |scores| ==> scores[i].1 < Threshold(c.signal.isLowSignal)
    ensures var cands := Candidates(c, scores);
      && |cands| == (if |scores| < 3 then |scores| else 3)
      && (forall k :: 0 <= k < |cands| ==> cands[k] == FallbackRecord(c, ByInterest(scores)[k].0, ByInterest(scores)[k].1))
      && (forall i :: 0 <= i < |scores| ==> scores[i].1 <= cands[0].interestScore)
  {
    MainRecordsEmpty(c, scores);
    var items := PyTake(ByInterest(scores), 3);
    forall k | 0 <= k < |items|
      ensures Candidates(c, scores)[k] == FallbackRecord(c, ByInterest(scores)[k].0, ByInterest(scores)[k].1)
    {
      FallbackRecordsAt(c, items, k);
      assert items[k] == ByInterest(scores)[k];
    }
    forall i | 0 <= i < |scores|
      ensures scores[i].1 <= Candidates(c, scores)[0].interestScore
    {
      SortedHeadIsMax(scores, ScoreOf, scores[i]);
    }
  }

  // ---------------------------------------------------------------- the output

  /** What every candidate record keeps: the final score is the sum of its contributions, the
      demand score is a share, confidence is Low exactly on a low signal, the baselines are the
      call's, and the verdict is the one of the record's own programmes. */
  predicate Consistent(c: Setting, r: Record)
  {
    && r.finalScore == r.interestContribution + r.marketContribution
    && 0.0 <= r.demandScore <= 1.0
    && (r.confidence == Low <==> r.isLowSignal)
    && r.baselines == c.baselines
    && r.deptStatus == DeptStatusOf(c.tables.requirements, r.programs, r.dept, c.kcse)
    && r.eligibility == EligibilityMapOf(c.tables.requirements, r.programs, r.dept, c.kcse)
  }

  /** Every candidate, regular or fallback, is consistent, and there is at least one. The only
      fact about the shared signal this needs is that its confidence is Low exactly on a low
      signal, which SignalFacts proves for the signal `recommend` computes. */
  lemma CandidatesConsistent(c: Setting, scores: seq<(string, real)>)
    requires |scores| > 0 && (c.signal.confidence == Low <==> c.signal.isLowSignal)
    ensures var cands := Candidates(c, scores);
      |cands| > 0 && forall r :: r in cands ==> Consistent(c, r)
  {
    if |MainRecords(c, scores)| > 0 {
      MainConsistent(c, scores);
    } else {
      FallbackConsistent(c, scores);
    }
  }

  lemma MainConsistent(c: Setting, scores: seq<(string, real)>)
    requires c.signal.confidence == Low <==> c.signal.isLowSignal
    ensures forall r :: r in MainRecords(c, scores) ==> Consistent(c, r)
  {
    forall r | r in MainRecords(c, scores)
      ensures Consistent(c, r)
    {
      var i := MainWitness(c, scores, r);
      FieldRecordScores(c, scores[i].0, scores[i].1);
      BlendFacts(c.signal.isLowSignal, c.alpha, c.beta, scores[i].1, r.demandScore);
      FieldRecordVerdict(c, scores[i].0, scores[i].1);
    }
  }

  lemma FallbackConsistent(c: Setting, scores: seq<(string, real)>)
    requires |scores| > 0
    ensures var items := PyTake(ByInterest(scores), 3);
      |FallbackRecords(c, items)| > 0 && forall r :: r in FallbackRecords(c, items) ==> Consistent(c, r)
  {
    var items := PyTake(ByInterest(scores), 3);
    forall r | r in FallbackRecords(c, items)
      ensures Consistent(c, r)
    {
      var k :| 0 <= k < |items| && FallbackRecords(c, items)[k] == r;
      FallbackRecordsAt(c, items, k);
    }
  }

  /** `out` is the best of `recs`, ranked: sorted by final score and headed by the best record
      of all; each returned record, with its baselines put back to `base`, is one of `recs`
      and carries the returned departments as hybrid baseline; taken together they are a
      sub-multiset of `recs` (no record twice more than it occurs), and every record left out
      scores at most the last one returned. */
  predicate RankedTop(out: seq<Record>, recs: seq<Record>, base: Baselines)
  {
    && SortedDesc(out, FinalScore)
    && (|out| > 0 ==> forall r :: r in recs ==> r.finalScore <= out[0].finalScore)
    && (forall k :: 0 <= k < |out| ==> out[k].baselines.hybrid == Depts(out) && out[k].(baselines := base) in recs)
    && multiset(ResetAll(out, base)) <= multiset(recs)
    && (|out| > 0 ==> forall r :: r in multiset(recs) - multiset(ResetAll(out, base)) ==> r.finalScore <= out[|out| - 1].finalScore)
  }

  /** Ranking and cutting a list of records keeps its best `top_n`, ranked. */
  lemma RankedCut(recs: seq<Record>, topN: int, base: Baselines)
    requires forall r :: r in recs ==> r.baselines == base
    ensures var top := PyTake(SortDesc(recs, FinalScore), topN);
      var out := WithHybrid(top, Depts(top));
      |out| == |top| && RankedTop(out, recs, base)
  {
    RankedOrder(recs, topN, base);
    CutIsTop(recs, topN, base);
    var top := PyTake(SortDesc(recs, FinalScore), topN);
    var out := WithHybrid(top, Depts(top));
    if |out| > 0 {
      assert out[|out| - 1].finalScore == top[|top| - 1].finalScore;
    }
  }

  lemma {:induction false} RankedOrder(recs: seq<Record>, topN: int, base: Baselines)
    requires forall r :: r in recs ==> r.baselines == base
    ensures var top := PyTake(SortDesc(recs, FinalScore), topN);
      var out := WithHybrid(top, Depts(top));
      && |out| == |top|
      && SortedDesc(out, FinalScore)
      && (|out| > 0 ==> forall r :: r in recs ==> r.finalScore <= out[0].finalScore)
      && (forall k :: 0 <= k < |out| ==> out[k].baselines.hybrid == Depts(out) && out[k].(baselines := base) in recs)
  {
    var sorted := SortDesc(recs, FinalScore);
    var top := PyTake(sorted, topN);
    var out := WithHybrid(top, Depts(top));
    forall k | 0 <= k < |out|
      ensures out[k] == sorted[k].(baselines := sorted[k].baselines.(hybrid := Depts(top)))
      ensures sorted[k] in recs
    {
      assert top[k] == sorted[k];
      assert sorted[k] in multiset(recs) by {
        assert sorted[k] in multiset(sorted);
      }
    }
    assert Depts(out) == Depts(top);
    forall i, j | 0 <= i < j < |out|
      ensures FinalScore(out[i]) >= FinalScore(out[j])
    {
      assert FinalScore(sorted[i]) >= FinalScore(sorted[j]);
    }
    if |out| > 0 {
      forall r | r in recs
        ensures r.finalScore <= out[0].finalScore
      {
        SortedHeadIsMax(recs, FinalScore, r);
      }
    }
  }

  /** The records returned, with their baselines put back, are drawn from the list without
      repetition beyond it, and every record left out scores at most the last one returned. */
  lemma CutIsTop(recs: seq<Record>, topN: int, base: Baselines)
    requires forall r :: r in recs ==> r.baselines == base
    ensures var top := PyTake(SortDesc(recs, FinalScore), topN);
      var out := WithHybrid(top, Depts(top));
      && ResetAll(out, base) == top
      && multiset(top) <= multiset(recs)
      && (|top| > 0 ==> forall r :: r in multiset(recs) - multiset(top) ==> r.finalScore <= top[|top| - 1].finalScore)
  {
    var sorted := SortDesc(recs, FinalScore);
    var top := PyTake(sorted, topN);
    ResetUndoesHybrid(recs, sorted, top, base);
    SortedTakeTop(sorted, FinalScore, top);
  }

  /** Putting the baselines back undoes the hybrid list on records drawn from `recs`. */
  lemma ResetUndoesHybrid(recs: seq<Record>, sorted: seq<Record>, top: seq<Record>, base: Baselines)
    requires forall r :: r in recs ==> r.baselines == base
    requires multiset(sorted) == multiset(recs) && |top| <= |sorted| && top == sorted[..|top|]
    ensures ResetAll(WithHybrid(top, Depts(top)), base) == top
  {
    var out := WithHybrid(top, Depts(top));
    forall k | 0 <= k < |top|
      ensures ResetAll(out, base)[k] == top[k]
    {
      assert top[k] == sorted[k];
      assert sorted[k] in multiset(recs) by {
        assert sorted[k] in multiset(sorted);
      }
    }
  }

  /** `recommend`'s output: at most `top_n` records (Python slice semantics), at least one when
      `top_n` is positive, ranked by final score, the first one the best of all candidates;
      each one is a consistent candidate record whose hybrid baseline is the list of the
      returned departments. */
  lemma RecommendRanked(tables: Tables, scores: seq<(string, real)>, topN: int, alpha: real, beta: real,
                        kcse: Option<Transcript>, userTokens: set<string>)
    requires |scores| > 0
    ensures var c := SettingOf(tables, scores, alpha, beta, kcse, userTokens);
      var cands := Candidates(c, scores);
      var out := RecommendOf(tables, scores, topN, alpha, beta, kcse, userTokens);
      && |out| == (if topN >= 0 then (if topN < |cands| then topN else |cands|)
                   else if |cands| + topN > 0 then |cands| + topN else 0)
      && (topN > 0 ==> |out| > 0)
      && RankedTop(out, cands, c.baselines)
      && (forall k :: 0 <= k < |out| ==> Consistent(c, out[k].(baselines := c.baselines)))
  {
    var c := SettingOf(tables, scores, alpha, beta, kcse, userTokens);
    var cands := Candidates(c, scores);
    var top := PyTake(SortDesc(cands, FinalScore), topN);
    var out := WithHybrid(top, Depts(top));
    assert RecommendOf(tables, scores, topN, alpha, beta, kcse, userTokens) == out;
    assert c.signal.confidence == Low <==> c.signal.isLowSignal by {
      SignalFacts(scores);
    }
    CandidatesConsistent(c, scores);
    RankedCut(cands, topN, c.baselines);
    forall k | 0 <= k < |out|
      ensures Consistent(c, out[k].(baselines := c.baselines))
    {
      assert out[k].(baselines := c.baselines) in cands;
    }
  }
}
