/** `extract_department`: the department label the programme mapping gives a KUCCPS programme
    name, by the first keyword category its lowercased name contains. */
module MapProgrammes {
  import opened Wrappers
  import opened PyStrings
  import opened Cascade

  /** The nine category labels, in the order the chain tests them. */
  const DepartmentLabels: seq<string> := [
    "Engineering", "Education", "Health Sciences", "Business", "Computing", "Agriculture",
    "Law / Social Sciences", "Environmental Sciences", "Arts & Humanities"]

  /** The keywords of each category, in the same order. */
  const ProgrammeGroups: seq<seq<string>> := [
    ["engineering", "technology"],
    ["education"],
    ["medicine", "nursing", "pharmacy", "surgery", "clinical"],
    ["business", "commerce", "accounting", "finance", "procurement", "economics"],
    ["computer", "ict", "information technology", "software", "data", "ai", "cyber", "informatics"],
    ["agriculture", "agribusiness", "animal", "crop", "food", "horticulture"],
    ["law", "criminology", "governance", "security", "international relations", "public policy"],
    ["environment", "forestry", "natural resources", "conservation"],
    ["arts", "music", "literature", "theatre", "fine art", "design", "linguistics"]]

  /** The department of a programme: the label of the first category with a keyword inside the
      lowercased name; with none, the name itself, stripped and in its own case. */
  function ExtractDepartment(programmeName: string): (d: string)
    ensures d in DepartmentLabels || d == Strip(programmeName)
    ensures (exists i :: 0 <= i < |ProgrammeGroups| && AnyIn(Lower(programmeName), ProgrammeGroups[i]))
            ==> d in DepartmentLabels
  {
    match FirstGroup(Lower(programmeName), ProgrammeGroups)
    case Some(i) => DepartmentLabels[i]
    case None => Strip(programmeName)
  }

  /** The first category that hits decides: the label returned is that of a category whose
      keyword occurs in the name, and no earlier category has one. */
  lemma FirstCategoryWins(programmeName: string, i: nat)
    requires i < |ProgrammeGroups| && AnyIn(Lower(programmeName), ProgrammeGroups[i])
    ensures exists k :: 0 <= k <= i && ExtractDepartment(programmeName) == DepartmentLabels[k]
                        && AnyIn(Lower(programmeName), ProgrammeGroups[k])
                        && forall j :: 0 <= j < k ==> !AnyIn(Lower(programmeName), ProgrammeGroups[j])
  {
    var k := FirstGroup(Lower(programmeName), ProgrammeGroups).value;
    assert ExtractDepartment(programmeName) == DepartmentLabels[k];
  }

  /** With no keyword anywhere in the name, the stripped name is returned. */
  lemma NoKeywordKeepsName(programmeName: string)
    requires forall i :: 0 <= i < |ProgrammeGroups| ==> !AnyIn(Lower(programmeName), ProgrammeGroups[i])
    ensures ExtractDepartment(programmeName) == Strip(programmeName)
  {
  }

  /** Only the lowercased name is read when a keyword hits: names equal up to case land in the
      same category. */
  lemma CaseBlind(a: string, b: string, i: nat)
    requires Lower(a) == Lower(b) && i < |ProgrammeGroups| && AnyIn(Lower(a), ProgrammeGroups[i])
    ensures ExtractDepartment(a) == ExtractDepartment(b) && ExtractDepartment(a) in DepartmentLabels
  {
  }

  /** "technology" is an Engineering keyword, tested before the Computing ones: an Information
      Technology programme is filed under Engineering. */
  lemma InformationTechnologyIsEngineering(name: string, words: seq<string>)
    requires name == "Information Technology" && words == ["information", "technology"]
    ensures ExtractDepartment(name) == "Engineering"
  {
    assert Lower(name) == "information technology";
    JoinCons(words[0], words[1..], " ");
    assert words == [words[0]] + words[1..];
    assert Join(words, " ") == Lower(name);
    HitAt(words[1], ProgrammeGroups[0], 1, 0);
    AnyInJoin(words, ProgrammeGroups[0]);
    FirstGroupIs(Lower(name), ProgrammeGroups, 0);
  }

  /** Keywords match without word boundaries: the "ai" inside "tailoring" files it under
      Computing. */
  lemma TailoringIsComputing(name: string)
    requires name == "tailoring"
    ensures ExtractDepartment(name) == "Computing"
  {
    assert Lower(name) == name;
    forall g | 0 <= g < 4
      ensures !AnyIn(name, ProgrammeGroups[g])
    {
      TailoringMisses(name, g);
    }
    HitAt(name, ProgrammeGroups[4], 5, 1);
    FirstGroupIs(name, ProgrammeGroups, 4);
  }

  lemma TailoringMisses(name: string, g: nat)
    requires name == "tailoring" && g < 4
    ensures !AnyIn(name, ProgrammeGroups[g])
  {
    if g == 0 {
      NoneOfGroup(name, ProgrammeGroups[0], [0, 1]);
    } else if g == 1 {
      NoneOfGroup(name, ProgrammeGroups[1], [0]);
    } else if g == 2 {
      NoneOfGroup(name, ProgrammeGroups[2], [0, 1, 0, 0, 0]);
    } else {
      NoneOfGroup(name, ProgrammeGroups[3], [0, 0, 1, 0, 0, 0]);
    }
  }
}
