/** `CareerRecommender.recommend`: interest scores from the classifier are filtered, blended
    with market demand, annotated with skills, programmes and the department verdict, then
    ranked. The loaded tables are passed in as values; the classifier's output is an input. */
module Recommend {
  import opened Wrappers
  import opened PyStrings
  import opened Dicts
  import opened Seqs
  import opened Eligibility
  import opened Department

  datatype Confidence = Low | Medium | High

  /** Which market-advice template a record carries. */
  datatype MarketTier = HighDemand | SteadyGrowth | NicheField | ReliableDemand

  /** Which `why_best` template a record carries. */
  datatype WhyBest = PassionFirst | MarketFirst | InterdisciplinaryFit | PersonalStrength | StrategicChoice
                   | SweetSpot | EntryPoint

  /** Which rationale template a record carries, with the values filled into it. */
  datatype Rationale =
    | RealityCheck(primarySkill: string)
    | DiplomaPathway(primarySkill: string)
    | NarrowGap
    | DirectAlignment(matched: string, primarySkill: string, secondSkill: string, thirdSkill: string)
    | HolisticFit(primarySkill: string, secondSkill: string, thirdSkill: string)
    | Exploratory

  /** One entry of the career skill map; either key may be missing. */
  datatype SkillEntry = SkillEntry(skills: Option<seq<string>>, programs: Option<seq<string>>)

  /** What the recommender loads at start-up. */
  datatype Tables = Tables(
    demand: seq<(string, nat)>,
    skillMap: seq<(string, SkillEntry)>,
    universities: seq<(string, seq<string>)>,
    requirements: seq<(string, Requirement)>,
    keywords: seq<(string, seq<string>)>)

  datatype Baselines = Baselines(interestOnly: seq<string>, marketOnly: seq<string>, hybrid: seq<string>)

  /** One recommendation. `universityMapping` is None for the fallback records, which do not
      carry that field. */
  datatype Record = Record(
    dept: string,
    finalScore: real,
    interestScore: real,
    demandScore: real,
    interestContribution: real,
    marketContribution: real,
    confidence: Confidence,
    skills: seq<string>,
    programs: seq<string>,
    universityMapping: Option<seq<(string, seq<string>)>>,
    rationale: Rationale,
    whyBest: WhyBest,
    market: MarketTier,
    jobCount: nat,
    isMixed: bool,
    isLowSignal: bool,
    deptStatus: DeptStatus,
    eligibility: seq<(string, Verdict)>,
    baselines: Baselines)

  /** Department names of the classifier mapped to the skill-map keys. */
  const DeptMapping: seq<(string, string)> := [
    ("Information Technology", "IT"),
    ("Healthcare & Medical", "Health Sciences"),
    ("Finance & Accounting", "Business"),
    ("Marketing & Sales", "Business"),
    ("Human Resources", "Business"),
    ("Administration & Support", "Business"),
    ("Law", "Law"),
    ("Arts & Media", "Arts & Humanities"),
    ("Agriculture & Environmental", "Agriculture"),
    ("Architecture & Construction", "Architecture & Built Environment"),
    ("Social Sciences & Community", "Arts & Humanities"),
    ("Security & Protective Services", "Arts & Humanities"),
    ("Data Science & Analytics", "IT"),
    ("Project Management", "Business"),
    ("Renewable Energy & Environment", "Environmental Studies"),
    ("Real Estate & Property", "Business"),
    ("Aviation & Logistics", "Engineering")]

  /** Department names of the classifier mapped to the demand-table keys. */
  const DemandMapping: seq<(string, string)> := [("Law", "Legal & Compliance")]

  /** Skills used when the skill map lists fewer than two. */
  const FallbackSkills: seq<(string, seq<string>)> := [
    ("IT", ["Software Development", "Systems Analysis", "Cybersecurity", "Database Management", "AI/ML"]),
    ("Health Sciences", ["Clinical Diagnosis", "Patient Care", "Anatomy", "Physiology", "Medical Ethics"]),
    ("Business", ["Strategic Management", "Financial Accounting", "Marketing", "Operations", "Leadership"]),
    ("Law", ["Legal Research", "Jurisprudence", "Litigation", "Civil Law", "Drafting"]),
    ("Engineering", ["Structural Design", "Technical Problem Solving", "CAD", "Project Engineering"]),
    ("Environmental Studies", ["Ecology", "Environmental Impact Assessment", "Conservation", "GIS"])]

  const GenericSkills: seq<string> := ["Analytical Thinking", "Critical Problem Solving", "Effective Communication"]

  const NoUniversity := "Consult KUCCPS Portal for Institutions"

  // ---------------------------------------------------------------- signal and confidence

  function RealKey(x: real): real { x }

  function ScoreOf(p: (string, real)): real { p.1 }

  function CountOf(p: (string, nat)): real { p.1 as real }

  function FinalScore(r: Record): real { r.finalScore }

  function Values(scores: seq<(string, real)>): (vs: seq<real>)
    ensures |vs| == |scores|
    ensures forall i :: 0 <= i < |scores| ==> vs[i] == scores[i].1
  {
    seq(|scores|, i requires 0 <= i < |scores| => scores[i].1)
  }

  function Sum(xs: seq<real>): real
  {
    if |xs| == 0 then 0.0 else Sum(xs[..|xs| - 1]) + xs[|xs| - 1]
  }

  /** `sorted(scores.values(), reverse=True)[:3]`: the three highest interest values (all of
      them when there are fewer), highest first. */
  function TopScores(scores: seq<(string, real)>): (top: seq<real>)
    ensures |top| == if |scores| < 3 then |scores| else 3
    ensures forall i, j :: 0 <= i < j < |top| ==> top[i] >= top[j]
    ensures multiset(top) <= multiset(Values(scores))
    ensures |top| > 0 ==> forall v :: v in multiset(Values(scores)) - multiset(top) ==> v <= top[|top| - 1]
  {
    var top := PyTake(SortDesc(Values(scores), RealKey), 3);
    TopOfValues(Values(scores), top);
    top
  }

  lemma TopOfValues(vs: seq<real>, top: seq<real>)
    requires top == PyTake(SortDesc(vs, RealKey), 3)
    ensures forall i, j :: 0 <= i < j < |top| ==> top[i] >= top[j]
    ensures multiset(top) <= multiset(vs)
    ensures |top| > 0 ==> forall v :: v in multiset(vs) - multiset(top) ==> v <= top[|top| - 1]
  {
    var sorted := SortDesc(vs, RealKey);
    PrefixDesc(sorted, top);
    if |top| > 0 {
      LeftOutBelowLast(vs, sorted, top);
    }
  }

  lemma PrefixDesc(sorted: seq<real>, top: seq<real>)
    requires SortedDesc(sorted, RealKey) && |top| <= |sorted| && top == sorted[..|top|]
    ensures forall i, j :: 0 <= i < j < |top| ==> top[i] >= top[j]
  {
    forall i, j | 0 <= i < j < |top|
      ensures top[i] >= top[j]
    {
      assert RealKey(sorted[i]) >= RealKey(sorted[j]);
    }
  }

  lemma LeftOutBelowLast(vs: seq<real>, sorted: seq<real>, top: seq<real>)
    requires sorted == SortDesc(vs, RealKey) && 0 < |top| <= |sorted| && top == sorted[..|top|]
    ensures multiset(top) <= multiset(vs)
    ensures forall v :: v in multiset(vs) - multiset(top) ==> v <= top[|top| - 1]
  {
    SortedPrefixTop(sorted, RealKey, |top|);
    forall v | v in multiset(vs) - multiset(top)
      ensures v <= top[|top| - 1]
    {
      assert RealKey(v) <= RealKey(sorted[|top| - 1]);
    }
  }

  /** The flags computed once per call and shared by every regular record. */
  datatype Signal = Signal(top: seq<real>, isMixed: bool, isLowSignal: bool, confidence: Confidence)

  function SignalOf(scores: seq<(string, real)>): (sig: Signal)
    requires |scores| > 0
  {
    var top := TopScores(scores);
    var mixed := if |top| > 1 then top[0] - top[1] < 0.05 else false;
    var low := top[0] < 0.15;
    var avg := Sum(top) / (|top| as real);
    Signal(top, mixed, low, if low then Low else if avg > 0.4 then High else Medium)
  }

  /** The interest a field needs to be considered at all. */
  function Threshold(lowSignal: bool): real
  {
    if lowSignal then 0.02 else 0.08
  }

  /** The weights actually applied: a low signal overrides the caller's. */
  function Weights(lowSignal: bool, alpha: real, beta: real): (real, real)
  {
    if lowSignal then (0.3, 0.7) else (alpha, beta)
  }

  /** The blended score and the two contributions it is the sum of. */
  datatype Blend = Blend(finalScore: real, interestContribution: real, marketContribution: real)

  function BlendOf(lowSignal: bool, alpha: real, beta: real, interest: real, demand: real): Blend
  {
    var w := Weights(lowSignal, alpha, beta);
    Blend(w.0 * interest + w.1 * demand, w.0 * interest, w.1 * demand)
  }

  // ---------------------------------------------------------------- per-field lookups

  /** The largest job count of the demand table, 0 when it is empty. */
  function MaxDemand(demand: seq<(string, nat)>): (m: nat)
    ensures forall i :: 0 <= i < |demand| ==> demand[i].1 <= m
    ensures |demand| == 0 ==> m == 0
    ensures |demand| > 0 ==> exists i :: 0 <= i < |demand| && demand[i].1 == m
  {
    if |demand| == 0 then 0
    else
      var m := MaxDemand(demand[..|demand| - 1]);
      if demand[|demand| - 1].1 > m then demand[|demand| - 1].1 else m
  }

  /** The number of job listings of the field, 0 when the demand table does not know it. */
  function JobCount(demand: seq<(string, nat)>, dept: string): nat
  {
    GetOr(demand, GetOr(DemandMapping, dept, dept), 0)
  }

  function DemandScore(demand: seq<(string, nat)>, dept: string): real
  {
    var m := MaxDemand(demand);
    if m > 0 then JobCount(demand, dept) as real / m as real else 0.0
  }

  /** The skill-map key of a field. */
  function LookupDept(skillMap: seq<(string, SkillEntry)>, dept: string): string
  {
    var l := GetOr(DeptMapping, dept, dept);
    if !HasKey(skillMap, l) && dept == "Information Technology" then "IT" else l
  }

  /** `skill_map.get(key, {}).get('skills', default)` */
  function EntrySkills(skillMap: seq<(string, SkillEntry)>, key: string, default: seq<string>): seq<string>
  {
    match Get(skillMap, key)
    case None => default
    case Some(e) => e.skills.GetOr(default)
  }

  /** `skill_map.get(key, {}).get('programs', [])`, which is also `get_kuccps_programs(key)`. */
  function EntryPrograms(skillMap: seq<(string, SkillEntry)>, key: string): seq<string>
  {
    match Get(skillMap, key)
    case None => []
    case Some(e) => e.programs.GetOr([])
  }

  /** The skills of a regular record: the map's list unless it has fewer than two entries. */
  function FieldSkills(skillMap: seq<(string, SkillEntry)>, key: string): seq<string>
  {
    var s := EntrySkills(skillMap, key, []);
    if |s| < 2 then GetOr(FallbackSkills, key, GenericSkills) else s
  }

  /** A regular record always carries at least two skills: the map's own list exactly when it
      has two or more, otherwise the field's fallback list or the generic one. */
  lemma FieldSkillsFacts(skillMap: seq<(string, SkillEntry)>, key: string)
    ensures var s := EntrySkills(skillMap, key, []);
      && |FieldSkills(skillMap, key)| >= 2
      && (FieldSkills(skillMap, key) == s <==> |s| >= 2)
      && (|s| < 2 ==> FieldSkills(skillMap, key) == GetOr(FallbackSkills, key, GenericSkills))
  {
    var r := Get(FallbackSkills, key);
    if r.Some? {
      var i :| 0 <= i < |FallbackSkills| && FallbackSkills[i] == (key, r.value);
      FallbackListsLong(i);
    }
  }

  lemma FallbackListsLong(i: nat)
    requires i < |FallbackSkills|
    ensures |FallbackSkills[i].1| >= 4
  {
  }

  /** The market-advice tier of a regular record: more than 30 listings, some, or none. */
  function Tier(jobCount: nat): (tier: MarketTier)
    ensures tier == HighDemand <==> jobCount > 30
    ensures tier == SteadyGrowth <==> 0 < jobCount <= 30
    ensures tier == NicheField <==> jobCount == 0
  {
    if jobCount > 30 then HighDemand else if jobCount > 0 then SteadyGrowth else NicheField
  }

  /** The department keywords found among the student's tokens, in keyword order. */
  function Matched(keywords: seq<string>, tokens: set<string>): (m: seq<string>)
    ensures forall w :: w in m <==> w in keywords && w in tokens
  {
    if |keywords| == 0 then []
    else
      var last := keywords[|keywords| - 1];
      Matched(keywords[..|keywords| - 1], tokens) + (if last in tokens then [last] else [])
  }

  function RationaleFor(status: DeptStatus, skills: seq<string>, matched: seq<string>): Rationale
  {
    var primary := if |skills| > 0 then skills[0] else "specialized techniques";
    match status
    case DeptNotEligible => RealityCheck(primary)
    case DeptDiploma => DiplomaPathway(primary)
    case DeptAspirational => NarrowGap
    case _ =>
      var second := if |skills| > 1 then skills[1] else "industry tools";
      var third := if |skills| > 2 then skills[2] else "strategic thinking";
      if |matched| > 0 then DirectAlignment(Join(PyTake(matched, 3), ", "), primary, second, third)
      else HolisticFit(primary, second, third)
  }

  /** The `why_best` cascade; it reads the caller's alpha and beta, not the effective ones. */
  function WhyBestFor(alpha: real, beta: real, sig: Signal, interest: real, demand: real): WhyBest
  {
    if alpha > 0.8 then PassionFirst
    else if beta > 0.6 then MarketFirst
    else if sig.isMixed && interest in sig.top then InterdisciplinaryFit
    else if interest > demand + 0.3 then PersonalStrength
    else if demand > interest + 0.3 then StrategicChoice
    else SweetSpot
  }

  /** `{p: university_map.get(p, [...])[:5] for p in programs}` */
  function UniversityMapping(universities: seq<(string, seq<string>)>, programs: seq<string>): seq<(string, seq<string>)>
  {
    if |programs| == 0 then []
    else
      var p := programs[|programs| - 1];
      Put(UniversityMapping(universities, programs[..|programs| - 1]), p, PyTake(GetOr(universities, p, [NoUniversity]), 5))
  }

  // ---------------------------------------------------------------- records

  /** Everything a call fixes before the loop over fields. */
  datatype Setting = Setting(tables: Tables, signal: Signal, baselines: Baselines, alpha: real, beta: real,
                             kcse: Option<Transcript>, userTokens: set<string>)

  /** The record of a field that passes the threshold. */
  function FieldRecord(c: Setting, dept: string, interest: real): Record
  {
    var low := c.signal.isLowSignal;
    var jobs := JobCount(c.tables.demand, dept);
    var demand := DemandScore(c.tables.demand, dept);
    var b := BlendOf(low, c.alpha, c.beta, interest, demand);
    var key := LookupDept(c.tables.skillMap, dept);
    var skills := FieldSkills(c.tables.skillMap, key);
    var programs := EntryPrograms(c.tables.skillMap, key);
    var status := DeptStatusOf(c.tables.requirements, programs, dept, c.kcse);
    Record(dept, b.finalScore, interest, demand, b.interestContribution, b.marketContribution, c.signal.confidence,
           skills, programs, Some(UniversityMapping(c.tables.universities, programs)),
           RationaleFor(status, skills, Matched(GetOr(c.tables.keywords, dept, []), c.userTokens)),
           WhyBestFor(c.alpha, c.beta, c.signal, interest, demand), Tier(jobs), jobs, c.signal.isMixed, low,
           status, EligibilityMapOf(c.tables.requirements, programs, dept, c.kcse), c.baselines)
  }

  /** The records of the main loop over `scores`, in score-table order. */
  function MainRecords(c: Setting, scores: seq<(string, real)>): (recs: seq<Record>)
    ensures |recs| <= |scores|
  {
    if |scores| == 0 then []
    else
      var prev := MainRecords(c, scores[..|scores| - 1]);
      var p := scores[|scores| - 1];
      if p.1 < Threshold(c.signal.isLowSignal) then prev else prev + [FieldRecord(c, p.0, p.1)]
  }

  /** A fallback record: interest alone, no demand, low confidence. */
  function FallbackRecord(c: Setting, dept: string, interest: real): Record
  {
    var key := GetOr(DeptMapping, dept, dept);
    var programs := EntryPrograms(c.tables.skillMap, key);
    Record(dept, interest, interest, 0.0, interest, 0.0, Low,
           EntrySkills(c.tables.skillMap, key, ["Interdisciplinary Skills"]), programs, None,
           Exploratory, EntryPoint, ReliableDemand, JobCount(c.tables.demand, dept), true, true,
           DeptStatusOf(c.tables.requirements, programs, dept, c.kcse),
           EligibilityMapOf(c.tables.requirements, programs, dept, c.kcse), c.baselines)
  }

  function FallbackRecords(c: Setting, items: seq<(string, real)>): (recs: seq<Record>)
    ensures |recs| == |items|
  {
    if |items| == 0 then []
    else
      var p := items[|items| - 1];
      FallbackRecords(c, items[..|items| - 1]) + [FallbackRecord(c, p.0, p.1)]
  }

  lemma MainRecordsSnoc(c: Setting, scores: seq<(string, real)>, i: nat)
    requires i < |scores|
    ensures MainRecords(c, scores[..i + 1])
         == MainRecords(c, scores[..i])
            + (if scores[i].1 < Threshold(c.signal.isLowSignal) then [] else [FieldRecord(c, scores[i].0, scores[i].1)])
  {
    assert scores[..i + 1][..i] == scores[..i] && scores[..i + 1][i] == scores[i];
  }

  lemma FallbackRecordsSnoc(c: Setting, items: seq<(string, real)>, i: nat)
    requires i < |items|
    ensures FallbackRecords(c, items[..i + 1]) == FallbackRecords(c, items[..i]) + [FallbackRecord(c, items[i].0, items[i].1)]
  {
    assert items[..i + 1][..i] == items[..i] && items[..i + 1][i] == items[i];
  }

  /** `sorted(scores.items(), key=score, reverse=True)` */
  function ByInterest(scores: seq<(string, real)>): seq<(string, real)>
  {
    SortDesc(scores, ScoreOf)
  }

  /** The regular records, or the top three by interest when no field passed. */
  function Candidates(c: Setting, scores: seq<(string, real)>): seq<Record>
  {
    var main := MainRecords(c, scores);
    if |main| > 0 then main else FallbackRecords(c, PyTake(ByInterest(scores), 3))
  }

  function Depts(recs: seq<Record>): (ds: seq<string>)
    ensures |ds| == |recs|
    ensures forall i :: 0 <= i < |recs| ==> ds[i] == recs[i].dept
  {
    seq(|recs|, i requires 0 <= i < |recs| => recs[i].dept)
  }

  /** The records with their baselines put back to `base`, as they were before the hybrid
      list was filled in. */
  function ResetAll(recs: seq<Record>, base: Baselines): (out: seq<Record>)
    ensures |out| == |recs|
    ensures forall i :: 0 <= i < |recs| ==> out[i] == recs[i].(baselines := base)
  {
    seq(|recs|, i requires 0 <= i < |recs| => recs[i].(baselines := base))
  }

  function WithHybrid(recs: seq<Record>, hybrid: seq<string>): (out: seq<Record>)
    ensures |out| == |recs|
  {
    seq(|recs|, i requires 0 <= i < |recs| => recs[i].(baselines := recs[i].baselines.(hybrid := hybrid)))
  }

  function SettingOf(tables: Tables, scores: seq<(string, real)>, alpha: real, beta: real,
                     kcse: Option<Transcript>, userTokens: set<string>): Setting
    requires |scores| > 0
  {
    var interestOnly := Keys(PyTake(ByInterest(scores), 5));
    var marketOnly := Keys(PyTake(SortDesc(tables.demand, CountOf), 5));
    Setting(tables, SignalOf(scores), Baselines(interestOnly, marketOnly, []), alpha, beta, kcse, userTokens)
  }

  /** What `recommend` returns. */
  function RecommendOf(tables: Tables, scores: seq<(string, real)>, topN: int, alpha: real, beta: real,
                       kcse: Option<Transcript>, userTokens: set<string>): seq<Record>
    requires |scores| > 0
  {
    var c := SettingOf(tables, scores, alpha, beta, kcse, userTokens);
    var top := PyTake(SortDesc(Candidates(c, scores), FinalScore), topN);
    WithHybrid(top, Depts(top))
  }

  // ---------------------------------------------------------------- the method

  method ComputeSignal(scores: seq<(string, real)>) returns (sig: Signal)
    requires |scores| > 0
    ensures sig == SignalOf(scores)
  {
    var top := TopScores(scores);
    var isMixed := if |top| > 1 then top[0] - top[1] < 0.05 else false;
    var isLowSignal := top[0] < 0.15;
    var avg := Sum(top) / (|top| as real);
    var confidence;
    if isLowSignal {
      confidence := Low;
    } else if avg > 0.4 {
      confidence := High;
    } else {
      confidence := Medium;
    }
    sig := Signal(top, isMixed, isLowSignal, confidence);
  }

  /** The blend: effective weights, the two contributions and their sum. */
  method ComputeBlend(lowSignal: bool, alpha: real, beta: real, interest: real, demand: real) returns (b: Blend)
    ensures b == BlendOf(lowSignal, alpha, beta, interest, demand)
  {
    var effectiveAlpha := if lowSignal then 0.3 else alpha;
    var effectiveBeta := if lowSignal then 0.7 else beta;
    var finalScore := effectiveAlpha * interest + effectiveBeta * demand;
    b := Blend(finalScore, effectiveAlpha * interest, effectiveBeta * demand);
  }

  /** The skill-map lookup of a field, with the generic skills filled in when the map lists
      fewer than two. */
  method RetrieveSkills(skillMap: seq<(string, SkillEntry)>, dept: string)
    returns (skills: seq<string>, programs: seq<string>)
    ensures skills == FieldSkills(skillMap, LookupDept(skillMap, dept))
    ensures programs == EntryPrograms(skillMap, LookupDept(skillMap, dept))
    ensures |skills| >= 2
    ensures var own := EntrySkills(skillMap, LookupDept(skillMap, dept), []);
      skills == own <==> |own| >= 2
  {
    var lookupDept := GetOr(DeptMapping, dept, dept);
    if !HasKey(skillMap, lookupDept) && dept == "Information Technology" {
      lookupDept := "IT";
    }
    skills := EntrySkills(skillMap, lookupDept, []);
    programs := EntryPrograms(skillMap, lookupDept);
    if |skills| < 2 {
      skills := GetOr(FallbackSkills, lookupDept, GenericSkills);
    }
    FieldSkillsFacts(skillMap, lookupDept);
  }

  method ChooseMarketTier(jobCount: nat) returns (market: MarketTier)
    ensures market == Tier(jobCount)
    ensures market == HighDemand <==> jobCount > 30
    ensures market == SteadyGrowth <==> 0 < jobCount <= 30
    ensures market == NicheField <==> jobCount == 0
  {
    if jobCount > 30 {
      market := HighDemand;
    } else if jobCount > 0 {
      market := SteadyGrowth;
    } else {
      market := NicheField;
    }
  }

  method ChooseWhyBest(alpha: real, beta: real, sig: Signal, interest: real, demand: real) returns (whyBest: WhyBest)
    ensures whyBest == WhyBestFor(alpha, beta, sig, interest, demand)
  {
    if alpha > 0.8 {
      whyBest := PassionFirst;
    } else if beta > 0.6 {
      whyBest := MarketFirst;
    } else if sig.isMixed && interest in sig.top {
      whyBest := InterdisciplinaryFit;
    } else if interest > demand + 0.3 {
      whyBest := PersonalStrength;
    } else if demand > interest + 0.3 {
      whyBest := StrategicChoice;
    } else {
      whyBest := SweetSpot;
    }
  }

  /** The body of the main loop for one field that passed the threshold. */
  method AssessField(c: Setting, dept: string, interest: real) returns (rec: Record)
    ensures rec == FieldRecord(c, dept, interest)
  {
    var low := c.signal.isLowSignal;
    var jobCount := JobCount(c.tables.demand, dept);
    var demandScore := DemandScore(c.tables.demand, dept);
    var blend := ComputeBlend(low, c.alpha, c.beta, interest, demandScore);
    var skills, programs := RetrieveSkills(c.tables.skillMap, dept);
    var market := ChooseMarketTier(jobCount);
    var deptStatus, eligibility := AssessDepartment(c.tables.requirements, programs, dept, c.kcse);
    var matched := Matched(GetOr(c.tables.keywords, dept, []), c.userTokens);
    var rationale := RationaleFor(deptStatus, skills, matched);
    var whyBest := ChooseWhyBest(c.alpha, c.beta, c.signal, interest, demandScore);
    rec := Record(dept, blend.finalScore, interest, demandScore, blend.interestContribution, blend.marketContribution,
                  c.signal.confidence, skills, programs, Some(UniversityMapping(c.tables.universities, programs)),
                  rationale, whyBest, market, jobCount, c.signal.isMixed, low, deptStatus, eligibility, c.baselines);
  }

  /** The main loop: fields below the threshold are skipped. */
  method CollectFields(c: Setting, scores: seq<(string, real)>) returns (recs: seq<Record>)
    ensures recs == MainRecords(c, scores)
  {
    recs := [];
    var i := 0;
    while i < |scores|
      invariant 0 <= i <= |scores|
      invariant recs == MainRecords(c, scores[..i])
    {
      var (dept, interest) := scores[i];
      MainRecordsSnoc(c, scores, i);
      var threshold := if c.signal.isLowSignal then 0.02 else 0.08;
      if interest >= threshold {
        var rec := AssessField(c, dept, interest);
        recs := recs + [rec];
      }
      i := i + 1;
    }
    assert scores[..|scores|] == scores;
  }

  /** A fallback record as first appended, before its department verdict is filled in. */
  method FallbackDraft(c: Setting, dept: string, interest: real) returns (rec: Record, programs: seq<string>)
    ensures programs == EntryPrograms(c.tables.skillMap, GetOr(DeptMapping, dept, dept))
    ensures rec == FallbackRecord(c, dept, interest).(deptStatus := DeptUnknown, eligibility := [])
  {
    var lookupDept := GetOr(DeptMapping, dept, dept);
    programs := EntryPrograms(c.tables.skillMap, lookupDept);
    rec := Record(dept, interest, interest, 0.0, interest, 0.0, Low,
                  EntrySkills(c.tables.skillMap, lookupDept, ["Interdisciplinary Skills"]), programs, None,
                  Exploratory, EntryPoint, ReliableDemand, JobCount(c.tables.demand, dept), true, true,
                  DeptUnknown, [], c.baselines);
  }

  /** The fallback loop: each record is appended, then its department verdict is filled in. */
  method CollectFallback(c: Setting, items: seq<(string, real)>) returns (recs: seq<Record>)
    ensures recs == FallbackRecords(c, items)
  {
    recs := [];
    var i := 0;
    while i < |items|
      invariant 0 <= i <= |items|
      invariant recs == FallbackRecords(c, items[..i])
    {
      var (dept, interest) := items[i];
      FallbackRecordsSnoc(c, items, i);
      var draft, programs := FallbackDraft(c, dept, interest);
      recs := recs + [draft];
      var status, eligibility := AssessDepartment(c.tables.requirements, programs, dept, c.kcse);
      recs := recs[|recs| - 1 := recs[|recs| - 1].(deptStatus := status, eligibility := eligibility)];
      i := i + 1;
    }
    assert items[..|items|] == items;
  }

  /** Every returned record gets the returned department list as its hybrid baseline. */
  method InjectHybrid(top: seq<Record>) returns (out: seq<Record>)
    ensures out == WithHybrid(top, Depts(top))
  {
    var hybrid := Depts(top);
    out := top;
    var j := 0;
    while j < |out|
      invariant 0 <= j <= |out| == |top|
      invariant forall k :: 0 <= k < j ==> out[k] == top[k].(baselines := top[k].baselines.(hybrid := hybrid))
      invariant forall k :: j <= k < |out| ==> out[k] == top[k]
    {
      out := out[j := out[j].(baselines := out[j].baselines.(hybrid := hybrid))];
      j := j + 1;
    }
  }

  /** `recommend(student_text, top_n, alpha, beta, kcse_results)` with the classifier's
      scores given. */
  method Recommend(tables: Tables, scores: seq<(string, real)>, topN: int, alpha: real, beta: real,
                   kcse: Option<Transcript>, userTokens: set<string>) returns (recs: seq<Record>)
    requires |scores| > 0
    ensures recs == RecommendOf(tables, scores, topN, alpha, beta, kcse, userTokens)
  {
    var sig := ComputeSignal(scores);
    var interestBaseline := Keys(PyTake(ByInterest(scores), 5));
    var marketBaseline := Keys(PyTake(SortDesc(tables.demand, CountOf), 5));
    var c := Setting(tables, sig, Baselines(interestBaseline, marketBaseline, []), alpha, beta, kcse, userTokens);
    recs := CollectFields(c, scores);
    if |recs| == 0 {
      recs := CollectFallback(c, PyTake(ByInterest(scores), 3));
    }
    recs := SortDesc(recs, FinalScore);
    var top := PyTake(recs, topN);
    recs := InjectHybrid(top);
  }
}
