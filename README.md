# AI Career Roadmap Recommender — a verified model of its core

The AI Career Roadmap Recommender is a Kenyan career guide. A student describes their interests in free
text and may enter their KCSE results (a mean grade and one grade per subject). The recommender
blends a per-department interest score with job-market demand, checks the student against the
KUCCPS entry requirements of the programmes in each department (rescuing Diploma/TVET pathways
when no degree is within reach), and returns ranked career roadmaps. The Streamlit front end
groups those roadmaps by eligibility, explains each match, and answers questions through a
keyword-driven advisor chat. Around the recommender sit the data pipeline scripts:
- job scraping and classification (two variants);
- the demand metrics;
- the career/skill map;
- the cleaning of the KUCCPS programmes table;
- the requirements builder and its relaxation pass;
- the mapping of programmes to departments;
- PDF text sanitising;
- backup retention.

This project models that core in Dafny, one module per component:

| module | file | models |
|---|---|---|
| `Wrappers`, `PyStrings`, `Dicts`, `Seqs` | wrappers.dfy, strings.dfy, dicts.dfy, seqs.dfy | Python's `Option`/error results, the `str` operations the code uses (`lower`, `upper`, `in`, `split`, `join`, `strip`, `find`), insertion-ordered dictionaries with Python's assignment semantics, counting, `unique()`, and a stable descending sort |
| `Cascade` | cascade.dfy | the `if any(k in text ...) / elif ...` keyword cascades used throughout |
| `Grades` | grades.dfy | the KCSE grade scale `GRADE_POINTS` |
| `Eligibility`, `EligibilityProps` | eligibility.dfy, eligibility_props.dfy | `check_eligibility` |
| `Department`, `DepartmentProps` | department.dfy, department_props.dfy | the per-department status and the diploma rescue inside `recommend` |
| `Recommend`, `RecommendProps` | recommend.dfy, recommend_props.dfy | `recommend`: signal flags, threshold, blend, demand score, skills, records, fallback, ranking, hybrid baseline |
| `ChatTopics`, `AppLogic` | chat_topics.dfy, app_logic.dfy | the front end's strategy weights, grouping, XAI split, foundation path and advisor chat |
| `MapProgrammes` | map_programmes.dfy | `extract_department` |
| `ExtractJobs` | extract_jobs.dfy | `classify_department`, `classify_location`, `extract_field` of the MyJobMag scraper |
| `ImportJobs` | import_jobs.dfy | `get_departments_from_csv`, `classify_department`, `extract` of the second scraper |
| `BuildRequirements` | build_requirements.dfy | `parse_subject` and the requirements-table builder |
| `RelaxRequirements` | relax_requirements.dfy | the B- to C+ relaxation pass |
| `CareerSkillMap` | career_skill_map.dfy | `create_career_skill_map` |
| `DemandMetrics` | demand_metrics.dfy | `compute_demand_metrics` |
| `CleanKuccps` | clean_kuccps.dfy | `clean_kuccps_data` |
| `PdfText` | pdf_text.dfy | `clean_text` of the PDF report |
| `Backups` | backups.dfy | the backup naming and `cleanup_old_backups` of the job updater |

Where the source changes state step by step, the model has the same shape:
- loops become methods with invariants, proved equal to a specification function;
- `Frame` (the cleaned data frame) and `ChatSession` (the chat history) are classes;
- the relaxation pass rewrites an `array` in place.

Pure decisions are functions. The properties are lemmas over those functions.

Conventions:
- Dictionaries are sequences of (key, value) pairs in insertion order.
- Scores are `real`.
- Characters are handled as ASCII.
- Inputs the code reads from files, the network, or the interest classifier are parameters:
  - the interest scores;
  - the demand table and skill map;
  - the requirements table;
  - the keyword tables;
  - whether a path exists;
  - file modification times.
- `fuzz.partial_ratio` is an arbitrary function parameter, since its algorithm is not part of this model.

## Model

| member | source | states |
|---|---|---|
| Grades.Points | models/recommender.py:7-9 | every grade is worth at most 12 points; anything off the scale is worth 0 |
| Grades.PointsReadScale | models/recommender.py:7-9 | the scale has 13 symbols, A=12 down to N/A=0, one point apart, and only these have points |
| Grades.SymbolFor | models/recommender.py:93-94 | the symbol picked for a point value is worth exactly those points |
| Grades.SymbolForPoints | models/recommender.py:93-94 | mapping a scale symbol to points and back gives the symbol again |
| Eligibility.MatchIndex | models/recommender.py:52-59 | the requirement used is the first table key that contains the programme name or is contained in it (case-insensitive); none means no key applies |
| Eligibility.LookupRequirement | models/recommender.py:52-59 | the lookup loop stops at that first applying key |
| Eligibility.OrFold | models/recommender.py:75-84 | the grade of an `X_or_Y` requirement is the best among the options; "E" when every option is worth 0 |
| Eligibility.BestAlternative | models/recommender.py:76-84 | the options loop computes that best option |
| Eligibility.SubjectPoints | models/recommender.py:88 | one point value per subject sat, each at most 12 |
| Eligibility.JudgeAll | models/recommender.py:71-97 | each required subject, in table order, is paired with the grade the student is judged on |
| Eligibility.GateNeverImproves | models/recommender.py:98-105 | the subject checks never raise the status, never turn a known status UNKNOWN, and only add reasons |
| Eligibility.RequirementGrade | models/recommender.py:73-97 | the grade chosen for one requirement: OR group, teaching slot, or the plain subject (default "E") |
| Eligibility.SubjectLoop | models/recommender.py:71-105 | the subject loop ends in the verdict and reasons of the gate over all required subjects |
| Eligibility.CheckEligibility | models/recommender.py:47-114 | the verdict is the specified one, and it is UNKNOWN exactly when no requirement key applies |
| EligibilityProps.GateClosed | models/recommender.py:98-105 | after the mean-grade gate, the subject loop's status depends only on how many subjects are missed and how many by two points or more |
| EligibilityProps.StatusClosedForm | models/recommender.py:47-114 | UNKNOWN with the fixed reason when no key applies; otherwise the closed form from the mean check and the miss counts |
| EligibilityProps.EligibleIff | models/recommender.py:64-105 | ELIGIBLE exactly when the mean grade passes and every required subject meets its minimum |
| EligibilityProps.AspirationalIff | models/recommender.py:98-105 | ASPIRATIONAL exactly when the mean passes and exactly one subject is missed, by one point |
| EligibilityProps.OrderFree | models/recommender.py:71-105 | checking the required subjects in another order gives the same status |
| EligibilityProps.MissingReadsAsE | models/recommender.py:65 | a missing mean grade, or a missing plain subject, reads as "E" (1 point) |
| EligibilityProps.OrGroupUsesBest | models/recommender.py:75-84 | an OR group is judged on its best option, and no option is worth more |
| EligibilityProps.OrFoldPoints | models/recommender.py:75-84 | the OR grade is worth the best option's points, or 1 when all are worth 0 |
| EligibilityProps.TeachingUsesRank | models/recommender.py:86-94 | Teaching_Subject1/2 takes the 1st/2nd highest subject points, or "E" with too few subjects |
| EligibilityProps.GradeOfMono | models/recommender.py:65-105 | raising grades never lowers a looked-up grade |
| EligibilityProps.OrFoldMono | models/recommender.py:75-84 | raising grades never lowers the OR grade |
| EligibilityProps.TeachingMono | models/recommender.py:86-94 | raising grades never lowers a teaching-slot grade |
| EligibilityProps.HaveMono | models/recommender.py:71-97 | raising grades never lowers the judged grade of any requirement |
| EligibilityProps.EvaluateMonotone | models/recommender.py:47-114 | better grades never give a worse verdict |
| EligibilityProps.ComputerScienceEntry | tests/test_recommender.py:70-81 | "Computer Science" resolves to its own entry of the test table |
| EligibilityProps.ComputerScienceVerdict | models/recommender.py:47-114 | the test-table verdict as a two-step gate after the mean check |
| EligibilityProps.ClosingDegree | models/recommender.py:107-112 | an ELIGIBLE Degree entry without a note closes with "Meets all criteria for Degree"; other statuses add nothing |
| EligibilityProps.ScenarioEligible | tests/test_recommender.py:85-93 | all A's give ELIGIBLE with the Degree closing reason |
| EligibilityProps.MeanBelowText | models/recommender.py:66-68 | a D+ mean against C+ fails, with the "is below required" reason |
| EligibilityProps.MeanAboveCPlus | models/recommender.py:66 | A and B means pass a C+ minimum |
| EligibilityProps.PassesPhysics | models/recommender.py:98 | an A or a C meets a C minimum |
| EligibilityProps.DoesNotMeetText | models/recommender.py:103-105 | a D against C+ is a far miss with the "does not meet" reason |
| EligibilityProps.SlightlyBelowText | models/recommender.py:100-102 | a C against C+ is a near miss with the "slightly below" reason |
| EligibilityProps.OneFarMiss | models/recommender.py:98-105 | one miss by two or more points gives NOT ELIGIBLE with that reason |
| EligibilityProps.OneNearMiss | models/recommender.py:98-102 | one miss by one point gives ASPIRATIONAL with that reason |
| EligibilityProps.NoMiss | models/recommender.py:98-105 | with no miss the gate keeps what the mean check left |
| EligibilityProps.ScenarioMeanFails | tests/test_recommender.py:95-103 | a D+ mean gives NOT ELIGIBLE with the mean reason |
| EligibilityProps.ScenarioSubjectFails | tests/test_recommender.py:105-113 | a D in Mathematics gives NOT ELIGIBLE with the subject reason |
| EligibilityProps.ScenarioAspirational | tests/test_recommender.py:115-128 | a C in Mathematics against C+ gives ASPIRATIONAL |
| Department.StatusesAt | models/recommender.py:264-275 | the i-th status is the i-th programme's verdict |
| Department.AnyWithStatusIff | models/recommender.py:264-275 | the loop's flags mean that some programme got that status |
| Department.HitsAt | models/recommender.py:277-284 | the rescue's i-th flag is whether row i is kept |
| Department.KeptMembers | models/recommender.py:277-284 | a name is kept exactly when some row of that name is flagged |
| Department.RescuedLast | models/recommender.py:277-284 | one more table row appends its name exactly when the rescue keeps it |
| Department.RescuedMembers | models/recommender.py:277-284 | a name is rescued exactly when a Diploma row sharing a word with the department checks out ELIGIBLE |
| Department.CheckPrograms | models/recommender.py:264-275 | the programme loop fills the eligibility map and sets the two flags exactly when some programme is ELIGIBLE / ASPIRATIONAL |
| Department.RescueDiplomas | models/recommender.py:277-284 | the rescue loop overwrites the specified entries and collects the rescued names |
| Department.AssessDepartment | models/recommender.py:263-289 | the department status and eligibility map are the specified ones |
| DepartmentProps.DeptStatusCases | models/recommender.py:286-289 | each status as a condition: ELIGIBLE iff a programme qualifies; DIPLOMA iff none does and a diploma is rescued; ASPIRATIONAL iff neither and a programme is one point short; else NOT ELIGIBLE |
| DepartmentProps.NoTranscriptUnknown | models/recommender.py:264-266 | without results the status is UNKNOWN and the map is empty |
| DepartmentProps.NoProgramsNotEligible | models/recommender.py:286-289 | with results, no programmes and no rescue, the status is NOT ELIGIBLE |
| DepartmentProps.ProgramStaysEligible | models/recommender.py:263-289 | a qualifying programme keeps the department ELIGIBLE under better grades |
| DepartmentProps.DiplomaStaysRescued | models/recommender.py:277-289 | a rescued diploma keeps the status at DIPLOMA or better under better grades |
| DepartmentProps.ProgramStaysAspirational | models/recommender.py:263-289 | an aspirational programme keeps the status at ASPIRATIONAL or better |
| DepartmentProps.DeptStatusMonotone | models/recommender.py:263-289 | better grades never lower the department status |
| DepartmentProps.ProgramEntriesGet | models/recommender.py:264-275 | after the programme loop the map holds each programme's own verdict and nothing else |
| DepartmentProps.RescueEntriesGet | models/recommender.py:277-284 | the rescue overwrites exactly the rescued names with ELIGIBLE and the pathway-prefixed reason |
| DepartmentProps.EligibilityMapGet | models/recommender.py:263-289 | the record's map: rescued diplomas ELIGIBLE with prefix; other programmes keep their verdict; nothing else |
| DepartmentProps.AmpersandIsKeyword | models/recommender.py:278-280 | the "&" of "Arts & Media" is a keyword, so every Diploma with "&" in its name is looked at |
| DepartmentProps.ArtsWords | models/recommender.py:278-280 | "Arts & Media" splits into "arts", "&", "media" |
| DepartmentProps.EarlierKeyShadowsDiploma | models/recommender.py:52-59 | the rescue's name lookup lets an earlier "Engineering" degree entry answer for "Diploma in Engineering", so a student who meets the diploma is not rescued |
| DepartmentProps.MeanCBetween | models/recommender.py:66 | a C mean passes C- and fails B- |
| DepartmentProps.KeyInsideName | models/recommender.py:52-59 | "Engineering" applies to "Diploma in Engineering" and shares its word |
| DepartmentProps.LowerEngineering | models/recommender.py:52-59 | the lowercased key occurs in the lowercased diploma name |
| Recommend.Values | models/recommender.py:181 | the values of the score table in order |
| Recommend.TopScores | models/recommender.py:182 | the three highest interest values (all of them when fewer), highest first: sorted descending, a sub-multiset of the values, and every value left out at most the last one kept |
| Recommend.MaxDemand | models/recommender.py:17 | the largest job count: no count exceeds it, some count equals it, 0 for an empty table |
| Recommend.Matched | models/recommender.py:293 | a keyword is matched exactly when it is a department keyword and among the student's tokens |
| Recommend.MainRecordsSnoc | models/recommender.py:208-215 | one more field adds its record exactly when it reaches the threshold |
| Recommend.FallbackRecordsSnoc | models/recommender.py:385-447 | one more fallback field adds its record |
| Recommend.Depts | models/recommender.py:453-456 | the departments of the records, in order |
| Recommend.WithHybrid | models/recommender.py:453-456 | the hybrid baseline is set on every record |
| Recommend.ComputeSignal | models/recommender.py:180-198 | the loop-free computation returns SignalOf, whose meaning RecommendProps.SignalFacts states |
| Recommend.ComputeBlend | models/recommender.py:222-231 | the effective weights and contributions are the specified blend |
| Recommend.RetrieveSkills | models/recommender.py:233-250 | skills and programmes come from the field's skill-map key; at least two skills, the map's own list exactly when it has two or more |
| Recommend.Tier | models/recommender.py:252-261 | High Demand iff more than 30 listings, Steady Growth iff 1 to 30, Niche Field iff none |
| Recommend.FieldSkillsFacts | models/recommender.py:238-250 | a regular record has at least two skills: the map's own list exactly when it has two or more, else the field's fallback list or the generic one |
| Recommend.ChooseMarketTier | models/recommender.py:252-261 | High Demand iff more than 30 listings, Steady Growth iff 1 to 30, Niche Field iff none |
| Recommend.ChooseWhyBest | models/recommender.py:343-355 | the why-best choice of the alpha/beta/signal cascade |
| Recommend.AssessField | models/recommender.py:217-383 | a field that passed the threshold gets the specified record |
| Recommend.CollectFields | models/recommender.py:208-383 | the main loop returns the specified records |
| Recommend.FallbackDraft | models/recommender.py:387-420 | a fallback record as first appended |
| Recommend.CollectFallback | models/recommender.py:385-447 | the fallback loop returns the specified records |
| Recommend.InjectHybrid | models/recommender.py:453-456 | every returned record gets the returned department list as its hybrid baseline |
| Recommend.Recommend | models/recommender.py:138-458 | `recommend` returns the specified list |
| RecommendProps.TopIsMax | models/recommender.py:181-186 | the first top score is the highest interest of all fields |
| RecommendProps.SumAtMost | models/recommender.py:189 | a sum of values bounded by m is at most count·m |
| RecommendProps.AverageBelowBound | models/recommender.py:189-193 | an average above x of values bounded by m puts m above x |
| RecommendProps.SignalFacts | models/recommender.py:180-198 | the signal's top scores are TopScores; low signal iff every field is below 0.15; mixed iff two or more fields and the two highest less than 0.05 apart; Low iff low signal; High iff not low and the mean of the top scores above 0.4, which needs some field above 0.4 |
| RecommendProps.RatioAtMostOne | models/recommender.py:217-220 | a share of a positive maximum lies in [0,1] |
| RecommendProps.BlendFacts | models/recommender.py:222-231 | the final score is the sum of the contributions, weighted (0.3, 0.7) on a low signal, else by alpha and beta |
| RecommendProps.JobCountAtMostMax | models/recommender.py:217-220 | a field's job count never exceeds the busiest field's |
| RecommendProps.DemandScoreRange | models/recommender.py:217-220 | the demand score is in [0,1], 0 for an unknown field, 1 for the busiest |
| RecommendProps.FieldRecordScores | models/recommender.py:217-231 | a regular record carries its interest, its demand score and their blend |
| RecommendProps.FieldRecordVerdict | models/recommender.py:233-383 | a regular record carries the call's flags, its programmes' verdict, and a why-best that reads alpha above 0.8 as passion first |
| RecommendProps.MainWitness | models/recommender.py:208-215 | every main-loop record comes from a field that reached the threshold |
| RecommendProps.MainFromPass | models/recommender.py:208-215 | every field reaching the threshold has its record |
| RecommendProps.MainRecordsMembers | models/recommender.py:208-215 | the main loop keeps exactly the fields reaching the threshold |
| RecommendProps.MainRecordsEmpty | models/recommender.py:385 | the fallback runs exactly when no field reaches the threshold |
| RecommendProps.FallbackRecordFacts | models/recommender.py:387-447 | a fallback record scores by interest alone, with Low confidence, both flags set and no university mapping |
| RecommendProps.FallbackRecordsAt | models/recommender.py:385-447 | the k-th fallback record is the k-th field's |
| RecommendProps.FallbackCandidates | models/recommender.py:385-447 | the fallback candidates are the top three fields by interest, the first the highest of all |
| RecommendProps.CandidatesConsistent | models/recommender.py:208-447 | there is at least one candidate, and every candidate is internally consistent |
| RecommendProps.RankedCut | models/recommender.py:449-458 | sorting and cutting keeps the best top_n: sorted by final score, headed by the best, a sub-multiset of the list (baselines put back), every record left out scoring at most the last one kept, each carrying the returned departments as hybrid baseline |
| RecommendProps.CutIsTop | models/recommender.py:449-450 | the records kept are a sub-multiset of the list, and every record left out scores at most the last one kept |
| RecommendProps.RecommendRanked | models/recommender.py:138-458 | exactly the slice length of top_n records, at least one when top_n is positive, the best top_n candidates ranked (sub-multiset, left-out records scoring at most the last), each a consistent candidate with the hybrid baseline |
| Cascade.FirstGroupFrom | app.py:948-1026 | the branch taken from a position on is the first group with a keyword in the text |
| Cascade.FirstGroup | app.py:948-1026 | an if/elif chain of `any(...)` takes its first hitting branch, else none |
| Cascade.FirstGroupIs | app.py:948-1026 | a hitting group with no earlier hit is the branch taken |
| Cascade.HitAt | app.py:948-1026 | a keyword found at a position makes its group hit |
| Cascade.NoneOfGroup | app.py:948-1026 | a group none of whose keywords has a character, or a character pair, in the text does not hit |
| Cascade.ContainsAcross | app.py:948-1026 | a keyword without character c occurs in x+c+y iff it occurs in x or in y |
| Cascade.AnyInJoin | app.py:948-1026 | over space-joined words, a space-free group hits iff it hits one word |
| Cascade.WordsMissAll | app.py:948-1026 | over space-joined words with space-free keywords, no branch is taken when no word hits any group |
| Cascade.WordsDecide | app.py:948-1026 | over space-joined words, the branch taken is the first group hit by a word |
| ChatTopics.TopicOf | app.py:944-1026 | a topic is chosen exactly when some keyword group occurs in the lowercased prompt |
| ChatTopics.BridgingNeverOnDiploma | app.py:970-1015 | the bridging answers are never reached by a prompt containing "diploma" |
| ChatTopics.ChatKeywordsUnspaced | app.py:948-1026 | no chat keyword holds a space |
| ChatTopics.AiRiskPromptGetsMarket | app.py:930-954 | the "AI Risk?" button gets the market answer through "job" |
| ChatTopics.UniversitiesPromptGetsGreeting | app.py:928-1026 | the "Universities?" button misses the programme keywords and gets the closing answer through "hi" |
| ChatTopics.SuccessPromptGetsCoaching | app.py:932-1026 | the "Success Tip?" button hits no keyword group and gets the default coaching answer |
| ChatTopics.SalaryPromptGetsSalary | app.py:926-958 | the "Salary?" button gets the salary answer |
| AppLogic.StrategyWeights | app.py:182-190 | the four strategies' weights, summing to 1 |
| AppLogic.StrategyDecidesWhyBest | models/recommender.py:343-348 | "Passion First" always reads passion first; "Market Priority" always reads market first |
| AppLogic.Group | app.py:401-405 | a group holds exactly the records with its status |
| AppLogic.LabelIsGroupLabel | app.py:401-413 | every status has its own label, one of the five group labels |
| AppLogic.GroupsPartition | app.py:401-413 | every record lands in exactly one group |
| AppLogic.GroupKeepsOrder | app.py:401-405 | a group keeps its records in ranked order |
| AppLogic.XaiSplit | app.py:512-516 | the passion and market percentages add up to 100 when the total is positive, and are 0 otherwise |
| AppLogic.SplitSums | app.py:514-516 | two shares of a positive total sum to 100% and each lies in [0,100] |
| AppLogic.XaiOfFinalScore | app.py:512-516 | for a returned record the passion share is its interest contribution over its final score |
| AppLogic.ChooseFoundationPath | app.py:565-572 | the roadmap's first step: bridging if aspirational; the first ELIGIBLE Diploma/TVET entry for a diploma field; else the first programme or the default track |
| AppLogic.RescuedDiplomaIsFoundation | app.py:565-570 | a rescued Diploma/TVET programme gives the diploma branch an entry to pick |
| AppLogic.ReplyOf | app.py:944-1026 | the coaching default is given exactly when no topic matches; the networking branch raises IndexError exactly when the top record has no skills |
| AppLogic.FallbackNetworkingRaises | app.py:994-1002 | a fallback top record whose skill-map entry lists no skills makes a networking question raise IndexError |
| AppLogic.FieldNetworkingAnswers | app.py:994-1002 | a regular top record always has skills, so a networking question is answered |
| AppLogic.BridgingTellsIneligibleTheyQualify | app.py:1015-1022 | the bridging answer tells a NOT ELIGIBLE or UNKNOWN top field that the student is already eligible for degree entry |
| AppLogic.Respond | app.py:944-1026 | the reply chain gives the specified reply, including the networking IndexError |
| AppLogic.ChatSession.constructor | app.py:911-912 | the history starts with the advisor's one greeting |
| AppLogic.ChatSession.Ask | app.py:934-1031 | the button's prompt wins over typed text; an empty prompt changes nothing; otherwise the question is appended, then the reply, unless the reply raised, which is reported and leaves the question alone in the history |
| MapProgrammes.ExtractDepartment | etl/map_programmes.py:6-28 | a category label, or the stripped name when no keyword hits; a label whenever some keyword hits |
| MapProgrammes.FirstCategoryWins | etl/map_programmes.py:9-26 | the first hitting category decides |
| MapProgrammes.NoKeywordKeepsName | etl/map_programmes.py:27-28 | with no keyword the stripped name is returned |
| MapProgrammes.CaseBlind | etl/map_programmes.py:7 | names equal up to case land in the same category |
| MapProgrammes.InformationTechnologyIsEngineering | etl/map_programmes.py:9-18 | "Information Technology" is filed under Engineering through "technology" |
| MapProgrammes.TailoringIsComputing | etl/map_programmes.py:17-18 | the "ai" in "tailoring" files it under Computing |
| ExtractJobs.Row | etl/extract_jobs.py:94-95 | one (department, keyword) pair per keyword of a row |
| ExtractJobs.ClassifyDepartment | etl/extract_jobs.py:91-99 | the best keyword's department when its score is above 75, else "Other" |
| ExtractJobs.BestIsFirstMax | etl/extract_jobs.py:93-98 | the running best is the first pair with the highest score |
| ExtractJobs.ClassifiedDepartment | etl/extract_jobs.py:91-99 | the department of the first highest-scoring pair above 75 is returned |
| ExtractJobs.FirstMaxUnique | etl/extract_jobs.py:97-98 | two first-maximum pairs with equal scores are the same |
| ExtractJobs.LowScoresAreOther | etl/extract_jobs.py:99 | with no score above 75 the best stays at or below 75 |
| ExtractJobs.FirstFuzzyFrom | etl/extract_jobs.py:128-133 | the first category with a term scoring at least 80 |
| ExtractJobs.ClassifyLocation | etl/extract_jobs.py:104-135 | a location label or "Unclear"; "Unclear" for empty text |
| ExtractJobs.LocationPrecedence | etl/extract_jobs.py:110-123 | substring tests take precedence in the order Remote, Hybrid, Onsite, Part time |
| ExtractJobs.FuzzyFallback | etl/extract_jobs.py:125-135 | with no substring hit: the first fuzzy category, or "Unclear" when there is none |
| ExtractJobs.BothRemoteAndOnsiteIsRemote | etl/extract_jobs.py:110-114 | "both remote and onsite" is caught by the Remote test |
| ExtractJobs.AfterColon | etl/extract_jobs.py:205 | what follows the first ':', or the whole line |
| ExtractJobs.FirstLineDecides | etl/extract_jobs.py:202-206 | the first line mentioning the keyword decides the field |
| ExtractJobs.NoLineEmpty | etl/extract_jobs.py:206 | with no line mentioning the keyword the field is empty |
| ImportJobs.Max3 | etl/import.py:61 | the largest of three scores |
| ImportJobs.KeywordGroups | etl/import.py:66-67 | one keyword group per department |
| ImportJobs.Classified | etl/import.py:48-72 | the result is a listed department or "Unclassified" |
| ImportJobs.ClassifyDepartment | etl/import.py:48-72 | the fuzzy pass then the keyword fallback give the specified department |
| ImportJobs.FuzzyPass | etl/import.py:56-63 | the fuzzy loop returns the specified best match |
| ImportJobs.KeywordPass | etl/import.py:65-69 | the fallback returns the first department with a word in the combined text |
| ImportJobs.BestFuzzyFrom | etl/import.py:56-63 | the fuzzy pass names the first highest total that reaches the threshold, or keeps ("Unclassified", 0) |
| ImportJobs.FuzzyWins | etl/import.py:65-72 | once a department reaches the threshold, the fuzzy choice is returned |
| ImportJobs.NothingReachesThreshold | etl/import.py:62-63 | with no department reaching a positive threshold the fuzzy pass finds nothing |
| ImportJobs.KeywordFallback | etl/import.py:65-72 | then the first department with a word in the text is returned, or "Unclassified" |
| ImportJobs.DropMissing | etl/import.py:42 | no missing cell remains |
| ImportJobs.MapTextsMembers | etl/import.py:43 | the mapped texts are the images of the text cells |
| ImportJobs.DropMissingMembers | etl/import.py:42 | exactly the present cells survive |
| ImportJobs.UniqueTexts | etl/import.py:42-43 | dropping missing cells and duplicates keeps every text cell's image |
| ImportJobs.DepartmentsAreTextCells | etl/import.py:36-43 | the departments are exactly the stripped, lowercased text cells |
| ImportJobs.UnreadableGivesNone | etl/import.py:40-46 | an unreadable table or a missing column gives [] |
| ImportJobs.DuplicatesAfterNormalising | etl/import.py:42-43 | " IT" and "it" both stay, as the same department twice |
| ImportJobs.TwoTextCells | etl/import.py:42-43 | two different text cells both survive |
| ImportJobs.Extract | etl/import.py:123-125 | "" without a "label:"; never a line break |
| ImportJobs.ExtractFound | etl/import.py:123-125 | wherever the first "label:" sits, ignoring case, a line ending in a line break gives the rest of that line, stripped |
| ImportJobs.ExtractFoundLastLine | etl/import.py:123-125 | the same for a label on the description's last line |
| BuildRequirements.ParseSubject | build_requirements.py:9-54 | a missing or empty cell gives nothing |
| BuildRequirements.ParseFormatted | build_requirements.py:9-54 | every cell written "CODE ALT(DIGITS):GRADE" parses to the code's subject and the stripped grade |
| BuildRequirements.MatchFormatted | build_requirements.py:14-16 | the pattern matches such a cell with the code and grade as its groups |
| BuildRequirements.MathematicsExample | build_requirements.py:11-17 | "MAT A(121):C" gives ("Mathematics", "C") |
| BuildRequirements.ComputerStudiesTwice | build_requirements.py:18-51 | COM and CMP both name Computer_Studies |
| BuildRequirements.UnknownCodeKept | build_requirements.py:52-53 | an unknown code is kept as the subject name |
| BuildRequirements.MinGradeFor | build_requirements.py:75-82 | the cutoff's minimum mean grade |
| BuildRequirements.MinGradeMonotone | build_requirements.py:75-82 | a higher cutoff never asks for a lower mean grade |
| BuildRequirements.ParseRowSubjects | build_requirements.py:84-90 | the subject loop collects the parsed subjects of a row |
| BuildRequirements.MergeSubjects | build_requirements.py:92-102 | the merge adds subjects not yet required |
| BuildRequirements.BuildRequirements | build_requirements.py:57-102 | the builder returns the specified table |
| BuildRequirements.LaterCellOverwrites | build_requirements.py:84-90 | a later cell for the same subject overwrites the earlier one within a row |
| BuildRequirements.MergeKeeps | build_requirements.py:92-102 | merging never drops or changes an existing subject |
| BuildRequirements.FirstRowFixesGrade | build_requirements.py:92-102 | a programme's first accepted row fixes its minimum mean grade |
| BuildRequirements.LaterRowsOnlyAdd | build_requirements.py:92-102 | later rows only add subjects |
| BuildRequirements.BuiltDistinct | build_requirements.py:57-102 | no programme is listed twice |
| RelaxRequirements.Relaxed | scripts/relax_requirements.py:18-27 | only a non-strict B- entry changes, to C+, and nothing else of it changes |
| RelaxRequirements.RelaxAll | scripts/relax_requirements.py:18-27 | every entry is relaxed on its own |
| RelaxRequirements.Relax | scripts/relax_requirements.py:18-27 | the array is rewritten in place and the count is the number of relaxable entries |
| RelaxRequirements.RelaxIdempotent | scripts/relax_requirements.py:18-27 | a second pass changes nothing |
| RelaxRequirements.StrictUntouched | scripts/relax_requirements.py:21-23 | strict programmes keep their entry |
| RelaxRequirements.CountIsChanged | scripts/relax_requirements.py:24-27 | the reported count is the number of entries changed |
| CareerSkillMap.DepartmentColumn | models/create_career_skill_map.py:91 | the department of every row, in order |
| CareerSkillMap.CreateCareerSkillMap | models/create_career_skill_map.py:90-97 | the loop writes one entry per distinct department, in first-appearance order |
| CareerSkillMap.MapKeysDistinct | models/create_career_skill_map.py:91-97 | no department has two entries |
| CareerSkillMap.MapKeysAreDepartments | models/create_career_skill_map.py:91-97 | a department has an entry exactly when some row carries it |
| CareerSkillMap.EntryOfDepartment | models/create_career_skill_map.py:92-97 | an entry holds the department's keyword list, or [], and its programmes |
| CareerSkillMap.NamesInMembers | models/create_career_skill_map.py:92 | a name is among the department's rows exactly when a row of that department carries it |
| CareerSkillMap.ProgramsOfDepartment | models/create_career_skill_map.py:92 | the programmes are the department's row names, each once, in first-appearance order |
| CareerSkillMap.DepartmentsInFirstRowOrder | models/create_career_skill_map.py:91 | departments enter the map in the order of their first row |
| DemandMetrics.MaxOf | models/compute_demand_metrics.py:24-25 | the largest count: an upper bound that is attained, 0 for none |
| DemandMetrics.Counts | models/compute_demand_metrics.py:21 | one count per group: the rows of that department |
| DemandMetrics.Score | models/compute_demand_metrics.py:24-25 | a score is in (0,1] and is 1 exactly at the largest count |
| DemandMetrics.Rows | models/compute_demand_metrics.py:21-25 | one row per group with its count and score |
| DemandMetrics.ComputeDemandMetrics | models/compute_demand_metrics.py:4-31 | an error exactly when the file is missing; otherwise one row per department, positive counts, scores in (0,1], no department twice |
| DemandMetrics.GroupsCounted | models/compute_demand_metrics.py:21 | every group has at least one row |
| DemandMetrics.RatioBounds | models/compute_demand_metrics.py:24-25 | a positive count over a maximum it does not exceed is in (0,1], and is 1 exactly at the maximum |
| DemandMetrics.RatioOrder | models/compute_demand_metrics.py:24-25 | dividing by the same maximum keeps the order |
| DemandMetrics.PresentMembers | models/compute_demand_metrics.py:21 | a department is a group exactly when some row holds it |
| DemandMetrics.RowPerDepartment | models/compute_demand_metrics.py:21-25 | a row exists for d exactly when some job is filed under d, and it counts those jobs |
| DemandMetrics.TopRows | models/compute_demand_metrics.py:24-25 | a row scores 1 exactly when no count exceeds its own |
| DemandMetrics.TopScoresOne | models/compute_demand_metrics.py:24-25 | the score is 1 exactly for the busiest departments, and some department has it |
| DemandMetrics.ScoresFollowCounts | models/compute_demand_metrics.py:24-25 | scores rank departments as their counts do |
| CleanKuccps.KeepRows | scripts/clean_kuccps_data.py:49-53 | no header-like row is kept |
| CleanKuccps.FillDepartment | scripts/clean_kuccps_data.py:57-61 | an existing department is kept, a missing one comes from Depertments, which is dropped; nothing else changes |
| CleanKuccps.FillAll | scripts/clean_kuccps_data.py:57-61 | every row is filled on its own |
| CleanKuccps.Frame.constructor | scripts/clean_kuccps_data.py:49-53 | the frame holds the filtered rows and the two column flags |
| CleanKuccps.Frame.FixDepertments | scripts/clean_kuccps_data.py:57-61 | only when both columns exist: rows filled, Depertments gone; otherwise nothing changes |
| CleanKuccps.CleanKuccpsData | scripts/clean_kuccps_data.py:5-75 | an unreadable file gives nothing; otherwise the filtered, coalesced frame, and the removed count is the number of header-like rows |
| CleanKuccps.KeptIff | scripts/clean_kuccps_data.py:49-53 | a row survives exactly when it is not header-like |
| CleanKuccps.KeepRowsAppend | scripts/clean_kuccps_data.py:49-53 | the filter works row by row, keeping order |
| CleanKuccps.KeepRowsIdempotent | scripts/clean_kuccps_data.py:49-53 | filtering again removes nothing |
| CleanKuccps.RemovedAreHeaders | scripts/clean_kuccps_data.py:69-71 | the removed count is the number of header-like rows |
| CleanKuccps.FillThenKeep | scripts/clean_kuccps_data.py:49-61 | filling commutes with the filter |
| CleanKuccps.RepeatedHeaderDropped | scripts/clean_kuccps_data.py:50 | a repeated "PROG" header line is removed |
| CleanKuccps.MissingCellsKept | scripts/clean_kuccps_data.py:49-53 | a row with both cells missing ("nan") is kept |
| PdfText.Chunks | pdf_generator.py:37 | non-empty chunks of at most 50 characters, all but the last exactly 50 |
| PdfText.Pieces | pdf_generator.py:35-40 | every word gives at least one piece |
| PdfText.PiecesOf | pdf_generator.py:34-40 | one group of pieces per word |
| PdfText.JoinEach | pdf_generator.py:38 | each group joined with the separator |
| PdfText.CleanText | pdf_generator.py:25-41 | the loop builds the specified cleaned text |
| PdfText.ChunksConcat | pdf_generator.py:37 | the chunks put back together are the word |
| PdfText.PiecesFacts | pdf_generator.py:35-40 | short words are left alone; pieces rebuild the word and are at most 50 long |
| PdfText.JoinAppend | pdf_generator.py:38-41 | joining two lists puts one separator between their joins |
| PdfText.JoinFlatten | pdf_generator.py:38-41 | joining joined groups is joining all their members |
| PdfText.FlattenMember | pdf_generator.py:38-41 | every member of the flattened list comes from a group |
| PdfText.CleanedIsPieces | pdf_generator.py:25-41 | the cleaned text is all words' pieces joined by single spaces |
| PdfText.ShortWordsUnchanged | pdf_generator.py:35-41 | text with no word over 50 characters comes back unchanged |
| PdfText.TokensBounded | pdf_generator.py:35-41 | every space-separated token of the result has at most 50 characters |
| PdfText.PiecesRebuildText | pdf_generator.py:31-41 | removing the inserted spaces gives the text back |
| Backups.BackupName | update_jobs.py:34-36 | the backup name is the stem, '_', the timestamp and the suffix |
| Backups.GroupKey | update_jobs.py:64-66 | a name has a group key exactly when it holds an underscore |
| Backups.SplitHasUnderscore | update_jobs.py:65 | a name splits into two or more parts exactly when it holds '_' |
| Backups.GroupKeyOfParts | update_jobs.py:65 | a name starting with two '_'-free parts is grouped under them |
| Backups.BackupKey | update_jobs.py:34-36 | a backup's group key is the first two parts of its stem |
| Backups.JobListingsShareGroup | update_jobs.py:34-36 | the CSV and JSON backups of the jobs share one group |
| Backups.MetricsGroup | update_jobs.py:34-36 | the metrics backups are grouped under "job_demand" |
| Backups.Names | update_jobs.py:70-73 | the names of the files in order |
| Backups.CleanupOldBackups | update_jobs.py:51-74 | nothing without the directory; the IndexError exactly when a name lacks '_'; otherwise the excess of every group is deleted and counted |
| Backups.GroupByKey | update_jobs.py:62-66 | the grouping loop builds the specified dictionary, or fails at a name without '_' |
| Backups.DeleteStale | update_jobs.py:68-73 | the deletion loop removes and counts the excess |
| Backups.KeyedPerm | update_jobs.py:58-66 | sorting does not change whether every name has a key |
| Backups.GroupFilesGet | update_jobs.py:62-66 | each group lists exactly the files with its key, in sorted order |
| Backups.SurplusCountsExcess | update_jobs.py:68-73 | the deleted count is the number of names deleted |
| Backups.ExcessMember | update_jobs.py:68-73 | a name is deleted exactly when it is past the first n of its group |
| Backups.GroupFilesDistinct | update_jobs.py:62-66 | no key appears twice |
| Backups.DeletedIffPastNewest | update_jobs.py:51-74 | a name is deleted exactly when n newer files share its key |
| Backups.SmallGroupsKept | update_jobs.py:68-73 | groups of at most n files lose nothing |

## Left out

- The interest classifier behind `recommend` (TF-IDF / NLP) is not part of this model. Its per-department scores and the student's token set are parameters.
- `fuzz.partial_ratio` is an arbitrary function parameter. The model therefore proves nothing that depends on its values.
- The department keyword tables (the scraper's and the career map's) are parameters rather than constants, apart from the programme categories and the chat and location keywords.
- `get_top_jobs` is not modelled. It only filters and sorts the scraped job table for display.
- The recommender's `__init__` and all file I/O are left out:
  - CSV/JSON reading and writing, including the career-map and metrics output files;
  - the Selenium scraping, MySQL loading and logging;
  - `shutil.copy2` and the file deletion in the updater.
  Files become sequence parameters, and an unreadable file is an `Option`.
- Rendering is not modelled: the Streamlit markup, the rationale prose and the PDF layout. Rationale, market advice, why-best and chat replies are enumerated templates, not their text.
- `conf_reason` strings are not modelled.
- Float parsing of the cutoff column is not modelled. Cutoffs are `real` already.
- Floating point is modelled as exact `real`.
- Character handling is ASCII only. `lower`, `upper`, `\w`, `\s` and `isspace` are Python's Unicode-aware versions.
- Regex metacharacters inside `extract`'s label are not modelled. Labels are taken literally.
- Recommend.SettingOf: the market baseline is sorted with pandas `sort_values`, which is not stable, but the model sorts it stably, so the order of tied job counts in that baseline is not modelled.
- Eligibility.CheckEligibility: an empty requirement entry makes Python return UNKNOWN, and a requirement without `min_mean_grade` raises KeyError; the model's requirement record always has a mean grade, so neither is modelled.
- Department.AssessDepartment: an empty results dictionary is falsy in Python and gives UNKNOWN, like a missing one; the model's transcript is `None` or a present transcript, so an empty but present one is not distinguished. The app always passes a dictionary holding `mean_grade` and `subjects` (app.py:316-323).
- Backups.CleanupOldBackups: the order of files with equal modification times is that of a stable sort.
- Backups.CleanupOldBackups: `keep_last_n` is a `nat`. The negative slices Python would accept are not modelled.
- Backups.CleanupOldBackups: modification times are parameters.
- DemandMetrics.Groups: pandas `groupby` lists departments sorted by name. The model lists them in first-appearance order, so only membership, counts and scores are stated, not the row order of the metrics table.
- DemandMetrics.ComputeDemandMetrics: the sum of the job counts equals the number of rows with a department. This is not stated.
- CareerSkillMap.CreateCareerSkillMap: a missing (NaN) department value is treated as an ordinary key.
- CleanKuccps.CleanKuccpsData: the stripping of column names is not modelled, and neither are the KeyErrors for a table lacking `Program_Code` or `Institution_Name`. The model assumes those columns.
- `backup_existing_data` is modelled only through the backup name it builds (`Backups.BackupName`). Copying files and counting the copies are I/O.
