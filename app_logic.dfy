/** The decisions the Streamlit front end takes around `recommend`: the weights a strategy
    selects, the grouping of records by department status, the interest/market split shown
    for a record, the foundation programme of a roadmap, and the advisor chat's intent
    cascade. Rendering is not modelled. */
module AppLogic {
  import opened Wrappers
  import opened PyStrings
  import opened Cascade
  import opened ChatTopics
  import opened Eligibility
  import opened Department
  import opened Recommend
  import opened RecommendProps
  import DepartmentProps
  import Dicts

  // ---------------------------------------------------------------- strategy

  /** The (alpha, beta) a strategy selects; `slider` is the interest weight of the Custom
      slider, read only by the last branch. */
  function StrategyWeights(strategy: string, slider: real): (w: (real, real))
    ensures w.0 + w.1 == 1.0
    ensures strategy == "Balanced Hybrid" ==> w == (0.70, 0.30)
    ensures strategy == "Passion First" ==> w == (0.90, 0.10)
    ensures strategy == "Market Priority" ==> w == (0.30, 0.70)
    ensures strategy !in {"Balanced Hybrid", "Passion First", "Market Priority"} ==> w.0 == slider
  {
    if strategy == "Balanced Hybrid" then (0.70, 0.30)
    else if strategy == "Passion First" then (0.90, 0.10)
    else if strategy == "Market Priority" then (0.30, 0.70)
    else (slider, 1.0 - slider)
  }

  /** Under "Passion First" every regular record reads passion first, and under "Market
      Priority" market first, whatever the signal. */
  lemma StrategyDecidesWhyBest(c: Setting, strategy: string, slider: real, dept: string, interest: real)
    requires (c.alpha, c.beta) == StrategyWeights(strategy, slider)
    ensures strategy == "Passion First" ==> FieldRecord(c, dept, interest).whyBest == PassionFirst
    ensures strategy == "Market Priority" ==> FieldRecord(c, dept, interest).whyBest == MarketFirst
  {
    FieldRecordVerdict(c, dept, interest);
  }

  // ---------------------------------------------------------------- grouping

  /** `[r for r in recommendations if r.get('dept_status') == tag]` */
  function Group(recs: seq<Record>, tag: string): (g: seq<Record>)
    ensures |g| <= |recs|
    ensures forall r :: r in g <==> r in recs && r.deptStatus.Label() == tag
  {
    if |recs| == 0 then []
    else
      var last := recs[|recs| - 1];
      Group(recs[..|recs| - 1], tag) + (if last.deptStatus.Label() == tag then [last] else [])
  }

  /** The five groups in display order. */
  const GroupLabels: seq<string> := ["ELIGIBLE", "ELIGIBLE (DIPLOMA)", "ASPIRATIONAL", "NOT ELIGIBLE", "UNKNOWN"]

  /** The number of records across the five groups, over a prefix of the list. */
  function GroupedTotal(recs: seq<Record>): nat
  {
    |Group(recs, GroupLabels[0])| + |Group(recs, GroupLabels[1])| + |Group(recs, GroupLabels[2])|
      + |Group(recs, GroupLabels[3])| + |Group(recs, GroupLabels[4])|
  }

  /** Every status has its own label, and the labels are the five group labels. */
  lemma LabelIsGroupLabel(s: DeptStatus)
    ensures s.Label() in GroupLabels
    ensures forall u: DeptStatus :: u.Label() == s.Label() ==> u == s
  {
  }

  /** Every record lands in exactly one of the five groups: their sizes add up to the number
      of records. */
  lemma {:induction false} GroupsPartition(recs: seq<Record>)
    ensures GroupedTotal(recs) == |recs|
    decreases |recs|
  {
    if |recs| > 0 {
      var init := recs[..|recs| - 1];
      GroupsPartition(init);
      LabelIsGroupLabel(recs[|recs| - 1].deptStatus);
    }
  }

  /** A group keeps the records of its status in their ranked order: the group's records are
      those of the list, in the same relative order. */
  lemma {:induction false} GroupKeepsOrder(recs: seq<Record>, tag: string, i: nat, j: nat)
    requires i < j < |Group(recs, tag)|
    ensures exists a, b :: 0 <= a < b < |recs| && recs[a] == Group(recs, tag)[i] && recs[b] == Group(recs, tag)[j]
    decreases |recs|
  {
    var init := recs[..|recs| - 1];
    var g := Group(recs, tag);
    var gi := Group(init, tag);
    if j < |gi| {
      GroupKeepsOrder(init, tag, i, j);
      var a, b :| 0 <= a < b < |init| && init[a] == gi[i] && init[b] == gi[j];
      assert recs[a] == g[i] && recs[b] == g[j];
    } else {
      assert g[j] == recs[|recs| - 1];
      assert g[i] in init by {
        assert g[i] == gi[i];
      }
      var a :| 0 <= a < |init| && init[a] == g[i];
      assert recs[a] == g[i];
    }
  }

  // ---------------------------------------------------------------- the XAI split

  /** The passion and market percentages of a record's match score. */
  function XaiSplit(interestContribution: real, marketContribution: real): (pct: (real, real))
    ensures interestContribution + marketContribution > 0.0 ==> pct.0 + pct.1 == 100.0
    ensures interestContribution + marketContribution <= 0.0 ==> pct == (0.0, 0.0)
    ensures 0.0 <= interestContribution && 0.0 <= marketContribution ==> 0.0 <= pct.0 <= 100.0 && 0.0 <= pct.1 <= 100.0
  {
    var total := interestContribution + marketContribution;
    if total > 0.0 then
      SplitSums(interestContribution, marketContribution, total);
      (interestContribution / total * 100.0, marketContribution / total * 100.0)
    else (0.0, 0.0)
  }

  lemma SplitSums(i: real, m: real, total: real)
    requires total == i + m && total > 0.0
    ensures i / total * 100.0 + m / total * 100.0 == 100.0
    ensures 0.0 <= i && 0.0 <= m ==> 0.0 <= i / total * 100.0 <= 100.0 && 0.0 <= m / total * 100.0 <= 100.0
  {
    DivAdd(i, m, total);
    assert (i + m) / total == 1.0;
    if 0.0 <= i && 0.0 <= m {
      RatioAtMostOne(i, total);
      RatioAtMostOne(m, total);
    }
  }

  lemma DivAdd(x: real, y: real, t: real)
    requires t > 0.0
    ensures x / t + y / t == (x + y) / t
  {
    var p, q := x / t, y / t;
    assert p * t == x;
    assert q * t == y;
    assert (p + q) * t == x + y;
  }

  /** For a returned record the split is of its final score: the passion share is the
      interest contribution's part of the match score. */
  lemma XaiOfFinalScore(c: Setting, r: Record)
    requires Consistent(c, r) && r.finalScore > 0.0
    ensures XaiSplit(r.interestContribution, r.marketContribution).0 == r.interestContribution / r.finalScore * 100.0
  {
  }

  // ---------------------------------------------------------------- the foundation path

  const DefaultTrack := "Specialized Degree Track"
  const BridgingTrack := "Bridging Certificate or TVET Diploma Foundation"

  /** `"Diploma" in p or "TVET" in p` (case-sensitive). */
  predicate DiplomaLike(p: string)
  {
    Contains(p, "Diploma") || Contains(p, "TVET")
  }

  /** An entry the diploma branch may pick. */
  predicate Foundation(entry: (string, Verdict))
  {
    entry.1.status == Eligible && DiplomaLike(entry.0)
  }

  /** The first step of a roadmap: the field's first programme (or a fixed tag); for a
      diploma-pathway field the first ELIGIBLE Diploma/TVET entry of the eligibility map, if any;
      for an aspirational field the bridging certificate. */
  method ChooseFoundationPath(programs: seq<string>, status: DeptStatus, eligibility: seq<(string, Verdict)>)
    returns (path: string)
    ensures status == DeptAspirational ==> path == BridgingTrack
    ensures status != DeptAspirational && status != DeptDiploma ==>
      path == if |programs| > 0 then programs[0] else DefaultTrack
    ensures status == DeptDiploma ==>
      if exists k :: 0 <= k < |eligibility| && Foundation(eligibility[k])
      then exists k :: 0 <= k < |eligibility| && Foundation(eligibility[k]) && path == eligibility[k].0
                       && forall j :: 0 <= j < k ==> !Foundation(eligibility[j])
      else path == if |programs| > 0 then programs[0] else DefaultTrack
  {
    path := if |programs| > 0 then programs[0] else DefaultTrack;
    if status == DeptDiploma {
      var k := 0;
      while k < |eligibility|
        invariant 0 <= k <= |eligibility|
        invariant forall j :: 0 <= j < k ==> !Foundation(eligibility[j])
        invariant path == if |programs| > 0 then programs[0] else DefaultTrack
      {
        var (p, data) := eligibility[k];
        if data.status == Eligible && (Contains(p, "Diploma") || Contains(p, "TVET")) {
          path := p;
          return;
        }
        k := k + 1;
      }
    } else if status == DeptAspirational {
      path := BridgingTrack;
    }
  }

  /** A rescued diploma whose name says "Diploma" or "TVET" gives the diploma branch an entry
      to pick: the record's eligibility map lists it as ELIGIBLE. */
  lemma RescuedDiplomaIsFoundation(table: seq<(string, Requirement)>, programs: seq<string>, dept: string, t: Transcript, q: string)
    requires DeptStatusOf(table, programs, dept, Some(t)) == DeptDiploma
    requires q in Rescued(table, table, dept, t) && DiplomaLike(q)
    ensures var m := EligibilityMapOf(table, programs, dept, Some(t));
      exists k :: 0 <= k < |m| && Foundation(m[k])
  {
    var m := EligibilityMapOf(table, programs, dept, Some(t));
    DepartmentProps.EligibilityMapGet(table, programs, dept, t, q);
    var v := Dicts.Get(m, q);
    var k :| 0 <= k < |m| && m[k] == (q, v.value);
    assert Foundation(m[k]);
  }

  // ---------------------------------------------------------------- the advisor chat

  /** The reply the advisor gives. */
  datatype Reply =
    | Coaching
    | Answer(topic: Topic, dept: string)
    | SecondChoice(dept: string)
    | OnlyChoice
    | BridgeAspirational
    | BridgeDiploma
    | BridgeDegree
    | NetworkingIndexError

  /** The reply to `prompt` about the ranked records: the topic's answer about the top record;
      the alternatives topic names the second record if there is one; the bridging topic depends
      on the top record's status. The networking answer reads the top record's first skill
      without a guard, so a top record without skills raises an IndexError there. */
  function ReplyOf(prompt: string, recs: seq<Record>): (reply: Reply)
    requires |recs| > 0
    ensures reply == Coaching <==> TopicOf(prompt).None?
    ensures reply == NetworkingIndexError <==> TopicOf(prompt) == Some(Networking) && |recs[0].skills| == 0
  {
    match TopicOf(prompt)
    case None => Coaching
    case Some(Alternatives) => if |recs| > 1 then SecondChoice(recs[1].dept) else OnlyChoice
    case Some(Bridging) =>
      if recs[0].deptStatus == DeptAspirational then BridgeAspirational
      else if recs[0].deptStatus == DeptDiploma then BridgeDiploma
      else BridgeDegree
    case Some(Networking) =>
      if |recs[0].skills| == 0 then NetworkingIndexError else Answer(Networking, recs[0].dept)
    case Some(topic) => Answer(topic, recs[0].dept)
  }

  /** A fallback record whose skill-map entry holds an empty skills list keeps it, so a
      networking question about it as the top record raises the IndexError. */
  lemma FallbackNetworkingRaises(c: Setting, dept: string, interest: real, prompt: string, rest: seq<Record>)
    requires Dicts.Get(c.tables.skillMap, Dicts.GetOr(DeptMapping, dept, dept)).Some?
    requires Dicts.Get(c.tables.skillMap, Dicts.GetOr(DeptMapping, dept, dept)).value.skills == Some([])
    requires TopicOf(prompt) == Some(Networking)
    ensures ReplyOf(prompt, [FallbackRecord(c, dept, interest)] + rest) == NetworkingIndexError
  {
    assert FallbackRecord(c, dept, interest).skills == [];
  }

  /** A regular record always has skills, so a networking question about it is answered. */
  lemma FieldNetworkingAnswers(c: Setting, dept: string, interest: real, prompt: string, rest: seq<Record>)
    requires TopicOf(prompt) == Some(Networking)
    ensures ReplyOf(prompt, [FieldRecord(c, dept, interest)] + rest) == Answer(Networking, dept)
  {
    FieldSkillsFacts(c.tables.skillMap, LookupDept(c.tables.skillMap, dept));
    assert ([FieldRecord(c, dept, interest)] + rest)[0] == FieldRecord(c, dept, interest);
  }

  /** The bridging answer tells a top field that is NOT ELIGIBLE (or UNKNOWN) that the student
      is already eligible for direct degree entry. */
  lemma BridgingTellsIneligibleTheyQualify(prompt: string, recs: seq<Record>)
    requires |recs| > 0 && TopicOf(prompt) == Some(Bridging)
    requires recs[0].deptStatus in {DeptNotEligible, DeptUnknown}
    ensures ReplyOf(prompt, recs) == BridgeDegree
  {
  }

  /** The chain that picks the advisor's reply, reassigning `response` from the coaching
      default. */
  method Respond(prompt: string, recs: seq<Record>) returns (response: Reply)
    requires |recs| > 0
    ensures response == ReplyOf(prompt, recs)
  {
    response := Coaching;
    var topic := TopicOf(prompt);
    if topic.Some? {
      match topic.value
      case Alternatives =>
        response := if |recs| > 1 then SecondChoice(recs[1].dept) else OnlyChoice;
      case Bridging =>
        var status := recs[0].deptStatus;
        if status == DeptAspirational {
          response := BridgeAspirational;
        } else if status == DeptDiploma {
          response := BridgeDiploma;
        } else {
          response := BridgeDegree;
        }
      case Networking =>
        if |recs[0].skills| == 0 {
          response := NetworkingIndexError;
        } else {
          response := Answer(Networking, recs[0].dept);
        }
      case _ =>
        response := Answer(topic.value, recs[0].dept);
    }
  }

  /** A chat message: the advisor's opening greeting, a question, or the advisor's reply. */
  datatype Message = AdvisorGreets | UserSays(prompt: string) | AdvisorSays(reply: Reply)

  /** The chat history kept in the session state. */
  class ChatSession {
    var messages: seq<Message>

    /** A new session's history holds the advisor's greeting alone. */
    constructor()
      ensures messages == [AdvisorGreets]
    {
      messages := [AdvisorGreets];
    }

    /** One turn: the button's prompt if one was pressed, else the typed text; an empty prompt
        does nothing, any other appends the question and then the advisor's reply. When the
        reply raises, the question is already in the history and no reply follows. */
    method Ask(button: Option<string>, typed: Option<string>, recs: seq<Record>) returns (raised: bool)
      requires |recs| > 0
      modifies this
      ensures var prompt := if button.Some? && button.value != "" then button.value else typed.GetOr("");
        && (raised <==> prompt != "" && ReplyOf(prompt, recs) == NetworkingIndexError)
        && messages == if prompt == "" then old(messages)
                       else if raised then old(messages) + [UserSays(prompt)]
                       else old(messages) + [UserSays(prompt), AdvisorSays(ReplyOf(prompt, recs))]
    {
      raised := false;
      var prompt := if button.Some? && button.value != "" then button.value else typed.GetOr("");
      if prompt != "" {
        messages := messages + [UserSays(prompt)];
        var response := Respond(prompt, recs);
        if response == NetworkingIndexError {
          raised := true;
          return;
        }
        messages := messages + [AdvisorSays(response)];
      }
    }
  }
}
