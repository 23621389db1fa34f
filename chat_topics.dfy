/** The advisor chat's intent cascade: the keyword groups of its if/elif chain, the topic a
    prompt selects, and where the four quick-prompt buttons land. */
module ChatTopics {
  import opened Wrappers
  import opened PyStrings
  import opened Cascade

  /** The topics of the chat's if/elif chain, in order. */
  datatype Topic = Why | Market | Salary | Skills | Programmes | AiImpact | Difficulty | Networking
                 | Alternatives | Bridging | Greeting

  const Topics: seq<Topic> := [Why, Market, Salary, Skills, Programmes, AiImpact, Difficulty, Networking,
                               Alternatives, Bridging, Greeting]

  /** The keywords of each topic, in the order the chain tests them. */
  const ChatGroups: seq<seq<string>> := [
    ["why", "reason", "because", "fit"],
    ["market", "demand", "job", "vacancy", "available"],
    ["salary", "money", "pay", "earn", "income", "compensation"],
    ["skill", "learn", "study", "certificate", "master"],
    ["university", "course", "program", "kuccps", "degree", "diploma", "where", "college", "institute"],
    ["ai", "future", "automation", "replace", "robot"],
    ["hard", "difficult", "easy", "challenge", "tough"],
    ["network", "internship", "attachment", "body", "society"],
    ["another", "else", "alternative", "other", "instead"],
    ["bridge", "upgrade", "diploma", "tvet", "foundation"],
    ["thank", "bye", "hello", "hi", "help"]]

  /** The topic the lowercased prompt selects, None for the default coaching text. */
  function TopicOf(prompt: string): (r: Option<Topic>)
    ensures r.Some? <==> exists j :: 0 <= j < |ChatGroups| && AnyIn(Lower(prompt), ChatGroups[j])
  {
    match FirstGroup(Lower(prompt), ChatGroups)
    case None => None
    case Some(i) => Some(Topics[i])
  }

  /** The quick prompts of the four buttons. */
  const SalaryPrompt := "What is the salary outlook?"
  const UniversitiesPrompt := "Which universities offer this?"
  const AiRiskPrompt := "Will AI replace this job?"
  const SuccessPrompt := "How can I succeed quickly?"

  /** "diploma" is tested with the programme keywords before the bridging ones, so a prompt
      only reaches the bridging answers without it. */
  lemma BridgingNeverOnDiploma(prompt: string)
    requires TopicOf(prompt) == Some(Bridging)
    ensures !Contains(Lower(prompt), "diploma")
  {
    var i := FirstGroup(Lower(prompt), ChatGroups).value;
    assert i == 9;
    assert ChatGroups[4][5] == "diploma";
  }

  /** No chat keyword holds a space, so a prompt can be searched one word at a time. */
  lemma ChatKeywordsUnspaced()
    ensures forall g, j :: 0 <= g < |ChatGroups| && 0 <= j < |ChatGroups[g]| ==> ' ' !in ChatGroups[g][j]
  {
  }

  /** The "AI Risk?" button is answered with the market text: "job" is a market keyword and
      the market branch comes before the AI branch. */
  lemma AiRiskPromptGetsMarket(prompt: string, text: string)
    requires prompt == AiRiskPrompt && text == "will ai replace this job?"
    ensures Lower(prompt) == text
    ensures TopicOf(prompt) == Some(Market)
  {
    var words := ["will", "ai", "replace", "this", "job?"];
    AiRiskLowered(prompt, text);
    AiRiskWords(text, words);
    forall g, i | 0 <= g < 1 && 0 <= i < |words|
      ensures !AnyIn(words[i], ChatGroups[g])
    {
      AiRiskWordsMiss(words, g);
    }
    HitAt(words[4], ChatGroups[1], 2, 0);
    ChatKeywordsUnspaced();
    WordsDecide(words, ChatGroups, 1);
  }

  lemma AiRiskLowered(prompt: string, text: string)
    requires prompt == AiRiskPrompt && text == "will ai replace this job?"
    ensures Lower(prompt) == text
  {
  }

  lemma AiRiskWords(text: string, words: seq<string>)
    requires text == "will ai replace this job?" && words == ["will", "ai", "replace", "this", "job?"]
    ensures Join(words, " ") == text
  {
    JoinCons(words[3], words[4..], " ");
    assert words[3..] == [words[3]] + words[4..];
    JoinCons(words[2], words[3..], " ");
    assert words[2..] == [words[2]] + words[3..];
    JoinCons(words[1], words[2..], " ");
    assert words[1..] == [words[1]] + words[2..];
    JoinCons(words[0], words[1..], " ");
    assert words == [words[0]] + words[1..];
    assert "will" + " " + ("ai" + " " + ("replace" + " " + ("this" + " " + "job?"))) == text;
  }

  /** The "Universities?" button misses every programme keyword ("universities" does not
      contain "university") and is answered by the closing branch, through the "hi" of
      "which". */
  lemma UniversitiesPromptGetsGreeting(prompt: string, text: string)
    requires prompt == UniversitiesPrompt && text == "which universities offer this?"
    ensures Lower(prompt) == text
    ensures TopicOf(prompt) == Some(Greeting)
  {
    var words := ["which", "universities", "offer", "this?"];
    UniversitiesLowered(prompt, text);
    UniversitiesWords(text, words);
    forall g, i | 0 <= g < 10 && 0 <= i < |words|
      ensures !AnyIn(words[i], ChatGroups[g])
    {
      UniversitiesWordsMiss(words, g);
    }
    HitAt(words[0], ChatGroups[10], 3, 1);
    ChatKeywordsUnspaced();
    WordsDecide(words, ChatGroups, 10);
  }

  lemma UniversitiesLowered(prompt: string, text: string)
    requires prompt == UniversitiesPrompt && text == "which universities offer this?"
    ensures Lower(prompt) == text
  {
  }

  lemma UniversitiesWords(text: string, words: seq<string>)
    requires text == "which universities offer this?" && words == ["which", "universities", "offer", "this?"]
    ensures Join(words, " ") == text
  {
    JoinCons(words[2], words[3..], " ");
    assert words[2..] == [words[2]] + words[3..];
    JoinCons(words[1], words[2..], " ");
    assert words[1..] == [words[1]] + words[2..];
    JoinCons(words[0], words[1..], " ");
    assert words == [words[0]] + words[1..];
    assert "which" + " " + ("universities" + " " + ("offer" + " " + "this?")) == text;
  }

  /** The "Salary?" button reaches the salary answer. */
  lemma SalaryPromptGetsSalary(prompt: string, text: string)
    requires prompt == SalaryPrompt && text == "what is the salary outlook?"
    ensures Lower(prompt) == text
    ensures TopicOf(prompt) == Some(Salary)
  {
    var words := ["what", "is", "the", "salary", "outlook?"];
    SalaryLowered(prompt, text);
    SalaryWords(text, words);
    forall g, i | 0 <= g < 2 && 0 <= i < |words|
      ensures !AnyIn(words[i], ChatGroups[g])
    {
      SalaryWordsMiss(words, g);
    }
    HitAt(words[3], ChatGroups[2], 0, 0);
    ChatKeywordsUnspaced();
    WordsDecide(words, ChatGroups, 2);
  }

  lemma SalaryLowered(prompt: string, text: string)
    requires prompt == SalaryPrompt && text == "what is the salary outlook?"
    ensures Lower(prompt) == text
  {
  }

  lemma SalaryWords(text: string, words: seq<string>)
    requires text == "what is the salary outlook?" && words == ["what", "is", "the", "salary", "outlook?"]
    ensures Join(words, " ") == text
  {
    var w1 := ["is", "the", "salary", "outlook?"];
    ThreeWords("the", "salary", "outlook?", w1[1..], "the salary outlook?");
    SalarySpaced();
    JoinStep("is", w1[1..], "the salary outlook?", "is the salary outlook?");
    assert w1 == ["is"] + w1[1..];
    JoinStep("what", w1, "is the salary outlook?", text);
    assert words == ["what"] + w1;
  }

  lemma SalarySpaced()
    ensures "is the salary outlook?" == "is" + " " + "the salary outlook?"
    ensures "what is the salary outlook?" == "what" + " " + "is the salary outlook?"
  {
  }

  /** Three words joined with single spaces. */
  lemma ThreeWords(a: string, b: string, c: string, w: seq<string>, joined: string)
    requires w == [a, b, c] && joined == a + " " + b + " " + c
    ensures Join(w, " ") == joined
  {
    JoinStep(b, [c], c, b + " " + c);
    assert w[1..] == [b] + [c];
    assert joined == a + " " + (b + " " + c);
    JoinStep(a, w[1..], b + " " + c, joined);
    assert w == [a] + w[1..];
  }

  /** One more word in front of a joined tail. */
  lemma JoinStep(p: string, tail: seq<string>, joined: string, whole: string)
    requires |tail| >= 1 && Join(tail, " ") == joined && whole == p + " " + joined
    ensures Join([p] + tail, " ") == whole
  {
    JoinCons(p, tail, " ");
  }

  /** The "Success Tip?" button hits no keyword group, so it gets the default coaching text. */
  lemma SuccessPromptGetsCoaching(prompt: string, text: string)
    requires prompt == SuccessPrompt && text == "how can i succeed quickly?"
    ensures Lower(prompt) == text
    ensures TopicOf(prompt) == None
  {
    var words := ["how", "can", "i", "succeed", "quickly?"];
    SuccessLowered(prompt, text);
    SuccessWords(text, words);
    forall g, i | 0 <= g < |ChatGroups| && 0 <= i < |words|
      ensures !AnyIn(words[i], ChatGroups[g])
    {
      SuccessWordsMiss(words, g);
    }
    ChatKeywordsUnspaced();
    WordsMissAll(words, ChatGroups);
  }

  lemma SuccessLowered(prompt: string, text: string)
    requires prompt == SuccessPrompt && text == "how can i succeed quickly?"
    ensures Lower(prompt) == text
  {
  }

  lemma SuccessWords(text: string, words: seq<string>)
    requires text == "how can i succeed quickly?" && words == ["how", "can", "i", "succeed", "quickly?"]
    ensures Join(words, " ") == text
  {
    var w1 := ["can", "i", "succeed", "quickly?"];
    ThreeWords("i", "succeed", "quickly?", w1[1..], "i succeed quickly?");
    SuccessSpaced();
    JoinStep("can", w1[1..], "i succeed quickly?", "can i succeed quickly?");
    assert w1 == ["can"] + w1[1..];
    JoinStep("how", w1, "can i succeed quickly?", text);
    assert words == ["how"] + w1;
  }

  lemma SuccessSpaced()
    ensures "can i succeed quickly?" == "can" + " " + "i succeed quickly?"
    ensures "how can i succeed quickly?" == "how" + " " + "can i succeed quickly?"
  {
  }

  // The words of the quick prompts against the keyword groups tested before the one that
  // answers each prompt.

  lemma AiRiskWordsMiss(words: seq<string>, g: nat)
    requires words == ["will", "ai", "replace", "this", "job?"] && g < 1
    ensures forall i :: 0 <= i < |words| ==> !AnyIn(words[i], ChatGroups[g])
  {
    forall i | 0 <= i < |words|
      ensures !AnyIn(words[i], ChatGroups[g])
    {
      if i == 0 {
        MissesWill(words[i], g);
      } else if i == 1 {
        MissesAi(words[i], g);
      } else if i == 2 {
        MissesReplace(words[i], g);
      } else if i == 3 {
        MissesThis(words[i], g);
      } else {
        MissesJobQ(words[i], g);
      }
    }
  }

  lemma UniversitiesWordsMiss(words: seq<string>, g: nat)
    requires words == ["which", "universities", "offer", "this?"] && g < 10
    ensures forall i :: 0 <= i < |words| ==> !AnyIn(words[i], ChatGroups[g])
  {
    forall i | 0 <= i < |words|
      ensures !AnyIn(words[i], ChatGroups[g])
    {
      if g < 5 {
        if i == 0 {
          MissesWhich(words[i], g);
        } else if i == 1 {
          MissesUniversities(words[i], g);
        } else if i == 2 {
          MissesOffer(words[i], g);
        } else {
          MissesThisQ(words[i], g);
        }
      } else {
        if i == 0 {
          MissesWhichLater(words[i], g);
        } else if i == 1 {
          MissesUniversitiesLater(words[i], g);
        } else if i == 2 {
          MissesOfferLater(words[i], g);
        } else {
          MissesThisQLater(words[i], g);
        }
      }
    }
  }

  lemma SalaryWordsMiss(words: seq<string>, g: nat)
    requires words == ["what", "is", "the", "salary", "outlook?"] && g < 2
    ensures forall i :: 0 <= i < |words| ==> !AnyIn(words[i], ChatGroups[g])
  {
    forall i | 0 <= i < |words|
      ensures !AnyIn(words[i], ChatGroups[g])
    {
      if i == 0 {
        MissesWhat(words[i], g);
      } else if i == 1 {
        MissesIs(words[i], g);
      } else if i == 2 {
        MissesTheOrOutlook(words[i], g);
      } else if i == 3 {
        MissesSalary(words[i], g);
      } else {
        MissesTheOrOutlook(words[i], g);
      }
    }
  }

  lemma MissesWill(w: string, g: nat)
    requires w == "will" && g < 1
    ensures !AnyIn(w, ChatGroups[g])
  {
    NoneOfGroup(w, ChatGroups[0], [1, 0, 0, 0]);
  }

  lemma MissesAi(w: string, g: nat)
    requires w == "ai" && g < 1
    ensures !AnyIn(w, ChatGroups[g])
  {
    NoneOfGroup(w, ChatGroups[0], [0, 0, 0, 0]);
  }

  lemma MissesReplace(w: string, g: nat)
    requires w == "replace" && g < 1
    ensures !AnyIn(w, ChatGroups[g])
  {
    NoneOfGroup(w, ChatGroups[0], [0, 3, 0, 0]);
  }

  lemma MissesThis(w: string, g: nat)
    requires w == "this" && g < 1
    ensures !AnyIn(w, ChatGroups[g])
  {
    NoneOfGroup(w, ChatGroups[0], [0, 0, 0, 0]);
  }

  lemma MissesJobQ(w: string, g: nat)
    requires w == "job?" && g < 1
    ensures !AnyIn(w, ChatGroups[g])
  {
    NoneOfGroup(w, ChatGroups[0], [0, 0, 1, 0]);
  }

  lemma MissesWhich(w: string, g: nat)
    requires w == "which" && g < 5
    ensures !AnyIn(w, ChatGroups[g])
  {
    if g == 0 {
      NoneOfGroup(w, ChatGroups[0], [2, 0, 0, 0]);
    } else if g == 1 {
      NoneOfGroup(w, ChatGroups[1], [0, 0, 0, 0, 0]);
    } else if g == 2 {
      NoneOfGroup(w, ChatGroups[2], [0, 0, 0, 0, 1, 1]);
    } else if g == 3 {
      NoneOfGroup(w, ChatGroups[3], [0, 0, 0, 1, 0]);
    } else {
      NoneOfGroup(w, ChatGroups[4], [0, 1, 0, 0, 0, 0, 2, 1, 1]);
    }
  }

  lemma MissesWhichLater(w: string, g: nat)
    requires w == "which" && 5 <= g < 10
    ensures !AnyIn(w, ChatGroups[g])
  {
    if g == 5 {
      NoneOfGroup(w, ChatGroups[5], [0, 0, 0, 0, 0]);
    } else if g == 6 {
      NoneOfGroup(w, ChatGroups[6], [1, 0, 0, 2, 0]);
    } else if g == 7 {
      NoneOfGroup(w, ChatGroups[7], [0, 1, 0, 0, 0]);
    } else if g == 8 {
      NoneOfGroup(w, ChatGroups[8], [0, 0, 0, 0, 1]);
    } else {
      NoneOfGroup(w, ChatGroups[9], [0, 0, 0, 0, 0]);
    }
  }

  lemma MissesUniversities(w: string, g: nat)
    requires w == "universities" && g < 5
    ensures !AnyIn(w, ChatGroups[g])
  {
    if g == 0 {
      NoneOfGroup(w, ChatGroups[0], [0, 2, 0, 0]);
    } else if g == 1 {
      NoneOfGroup(w, ChatGroups[1], [0, 0, 0, 1, 0]);
    } else if g == 2 {
      NoneOfGroup(w, ChatGroups[2], [1, 0, 0, 1, 2, 0]);
    } else {
      MissesUniversitiesMid(w, g);
    }
  }

  lemma MissesUniversitiesMid(w: string, g: nat)
    requires w == "universities" && 3 <= g < 5
    ensures !AnyIn(w, ChatGroups[g])
  {
    if g == 3 {
      NoneOfGroup(w, ChatGroups[3], [1, 0, 3, 0, 0]);
    } else {
      NoneOfGroup(w, ChatGroups[4], [9, 0, 0, 0, 0, 0, 0, 0, 0]);
    }
  }

  lemma MissesUniversitiesLater(w: string, g: nat)
    requires w == "universities" && 5 <= g < 10
    ensures !AnyIn(w, ChatGroups[g])
  {
    if g == 5 {
      NoneOfGroup(w, ChatGroups[5], [0, 0, 0, 2, 1]);
    } else if g == 6 {
      NoneOfGroup(w, ChatGroups[6], [0, 0, 1, 0, 1]);
    } else if g == 7 {
      NoneOfGroup(w, ChatGroups[7], [3, 7, 0, 0, 1]);
    } else if g == 8 {
      NoneOfGroup(w, ChatGroups[8], [0, 1, 0, 0, 5]);
    } else {
      NoneOfGroup(w, ChatGroups[9], [0, 1, 0, 0, 0]);
    }
  }

  lemma MissesOffer(w: string, g: nat)
    requires w == "offer" && g < 5
    ensures !AnyIn(w, ChatGroups[g])
  {
    if g == 0 {
      NoneOfGroup(w, ChatGroups[0], [0, 2, 0, 1]);
    } else if g == 1 {
      NoneOfGroup(w, ChatGroups[1], [0, 0, 0, 0, 0]);
    } else if g == 2 {
      NoneOfGroup(w, ChatGroups[2], [0, 0, 0, 1, 0, 0]);
    } else if g == 3 {
      NoneOfGroup(w, ChatGroups[3], [0, 0, 0, 0, 0]);
    } else {
      NoneOfGroup(w, ChatGroups[4], [0, 0, 0, 0, 0, 0, 0, 0, 0]);
    }
  }

  lemma MissesOfferLater(w: string, g: nat)
    requires w == "offer" && 5 <= g < 10
    ensures !AnyIn(w, ChatGroups[g])
  {
    if g == 5 {
      NoneOfGroup(w, ChatGroups[5], [0, 1, 0, 2, 2]);
    } else if g == 6 {
      NoneOfGroup(w, ChatGroups[6], [0, 0, 1, 0, 0]);
    } else if g == 7 {
      NoneOfGroup(w, ChatGroups[7], [0, 0, 0, 0, 0]);
    } else if g == 8 {
      NoneOfGroup(w, ChatGroups[8], [0, 1, 0, 1, 0]);
    } else {
      NoneOfGroup(w, ChatGroups[9], [0, 0, 0, 0, 2]);
    }
  }

  lemma MissesThisQ(w: string, g: nat)
    requires w == "this?" && g < 5
    ensures !AnyIn(w, ChatGroups[g])
  {
    if g == 0 {
      NoneOfGroup(w, ChatGroups[0], [0, 0, 0, 0]);
    } else if g == 1 {
      NoneOfGroup(w, ChatGroups[1], [0, 0, 0, 0, 0]);
    } else if g == 2 {
      NoneOfGroup(w, ChatGroups[2], [1, 0, 0, 0, 1, 0]);
    } else if g == 3 {
      NoneOfGroup(w, ChatGroups[3], [1, 0, 2, 0, 0]);
    } else {
      NoneOfGroup(w, ChatGroups[4], [0, 0, 0, 0, 0, 0, 0, 0, 1]);
    }
  }

  lemma MissesThisQLater(w: string, g: nat)
    requires w == "this?" && 5 <= g < 10
    ensures !AnyIn(w, ChatGroups[g])
  {
    if g == 5 {
      NoneOfGroup(w, ChatGroups[5], [0, 0, 0, 0, 0]);
    } else if g == 6 {
      NoneOfGroup(w, ChatGroups[6], [1, 0, 0, 0, 1]);
    } else if g == 7 {
      NoneOfGroup(w, ChatGroups[7], [0, 1, 0, 0, 1]);
    } else if g == 8 {
      NoneOfGroup(w, ChatGroups[8], [0, 0, 0, 0, 1]);
    } else {
      NoneOfGroup(w, ChatGroups[9], [0, 0, 0, 1, 0]);
    }
  }

  lemma MissesWhat(w: string, g: nat)
    requires w == "what" && g < 2
    ensures !AnyIn(w, ChatGroups[g])
  {
    if g == 0 {
      NoneOfGroup(w, ChatGroups[0], [2, 0, 0, 0]);
    } else {
      NoneOfGroup(w, ChatGroups[1], [0, 0, 0, 0, 1]);
    }
  }

  lemma MissesIs(w: string, g: nat)
    requires w == "is" && g < 2
    ensures !AnyIn(w, ChatGroups[g])
  {
    if g == 0 {
      NoneOfGroup(w, ChatGroups[0], [0, 0, 0, 0]);
    } else {
      NoneOfGroup(w, ChatGroups[1], [0, 0, 0, 0, 0]);
    }
  }

  lemma MissesTheOrOutlook(w: string, g: nat)
    requires (w == "the" || w == "outlook?") && g < 2
    ensures !AnyIn(w, ChatGroups[g])
  {
    if g == 0 {
      NoneOfGroup(w, ChatGroups[0], [0, 0, 0, 0]);
    } else {
      NoneOfGroup(w, ChatGroups[1], [0, 0, 0, 0, 0]);
    }
  }

  lemma MissesSalary(w: string, g: nat)
    requires w == "salary" && g < 2
    ensures !AnyIn(w, ChatGroups[g])
  {
    if g == 0 {
      NoneOfGroup(w, ChatGroups[0], [0, 1, 0, 0]);
    } else {
      NoneOfGroup(w, ChatGroups[1], [0, 0, 0, 0, 1]);
    }
  }

  lemma SuccessWordsMiss(words: seq<string>, g: nat)
    requires words == ["how", "can", "i", "succeed", "quickly?"] && g < 11
    ensures forall i :: 0 <= i < |words| ==> !AnyIn(words[i], ChatGroups[g])
  {
    forall i | 0 <= i < |words|
      ensures !AnyIn(words[i], ChatGroups[g])
    {
      if g < 4 {
        if i == 0 { MissesHowFirst(words[i], g); }
        else if i == 1 { MissesCanFirst(words[i], g); }
        else if i == 2 { MissesIFirst(words[i], g); }
        else if i == 3 { MissesSucceedFirst(words[i], g); }
        else { MissesQuicklyQFirst(words[i], g); }
      } else if g < 8 {
        if i == 0 { MissesHowMid(words[i], g); }
        else if i == 1 { MissesCanMid(words[i], g); }
        else if i == 2 { MissesIMid(words[i], g); }
        else if i == 3 { MissesSucceedMid(words[i], g); }
        else { MissesQuicklyQMid(words[i], g); }
      } else {
        if i == 0 { MissesHowLast(words[i], g); }
        else if i == 1 { MissesCanLast(words[i], g); }
        else if i == 2 { MissesILast(words[i], g); }
        else if i == 3 { MissesSucceedLast(words[i], g); }
        else { MissesQuicklyQLast(words[i], g); }
      }
    }
  }

  lemma MissesHowFirst(w: string, g: nat)
    requires w == "how" && g < 4
    ensures !AnyIn(w, ChatGroups[g])
  {
    if g == 0 {
      NoneOfGroup(w, ChatGroups[0], [2, 0, 0, 0]);
    } else if g == 1 {
      NoneOfGroup(w, ChatGroups[1], [0, 0, 0, 0, 0]);
    } else if g == 2 {
      NoneOfGroup(w, ChatGroups[2], [0, 0, 0, 0, 0, 0]);
    } else {
      NoneOfGroup(w, ChatGroups[3], [0, 0, 0, 0, 0]);
    }
  }

  lemma MissesHowMid(w: string, g: nat)
    requires w == "how" && 4 <= g < 8
    ensures !AnyIn(w, ChatGroups[g])
  {
    if g == 4 {
      NoneOfGroup(w, ChatGroups[4], [0, 0, 0, 0, 0, 0, 2, 0, 0]);
    } else if g == 5 {
      NoneOfGroup(w, ChatGroups[5], [0, 0, 0, 0, 0]);
    } else if g == 6 {
      NoneOfGroup(w, ChatGroups[6], [1, 0, 0, 0, 0]);
    } else {
      NoneOfGroup(w, ChatGroups[7], [0, 0, 0, 0, 0]);
    }
  }

  lemma MissesHowLast(w: string, g: nat)
    requires w == "how" && 8 <= g < 11
    ensures !AnyIn(w, ChatGroups[g])
  {
    if g == 8 {
      NoneOfGroup(w, ChatGroups[8], [0, 0, 0, 1, 0]);
    } else if g == 9 {
      NoneOfGroup(w, ChatGroups[9], [0, 0, 0, 0, 0]);
    } else {
      NoneOfGroup(w, ChatGroups[10], [0, 0, 1, 1, 1]);
    }
  }

  lemma MissesCanFirst(w: string, g: nat)
    requires w == "can" && g < 4
    ensures !AnyIn(w, ChatGroups[g])
  {
    if g == 0 {
      NoneOfGroup(w, ChatGroups[0], [0, 0, 0, 0]);
    } else if g == 1 {
      NoneOfGroup(w, ChatGroups[1], [0, 0, 0, 0, 1]);
    } else if g == 2 {
      NoneOfGroup(w, ChatGroups[2], [0, 0, 0, 0, 0, 1]);
    } else {
      NoneOfGroup(w, ChatGroups[3], [0, 0, 0, 1, 0]);
    }
  }

  lemma MissesCanMid(w: string, g: nat)
    requires w == "can" && 4 <= g < 8
    ensures !AnyIn(w, ChatGroups[g])
  {
    if g == 4 {
      NoneOfGroup(w, ChatGroups[4], [0, 1, 0, 0, 0, 0, 0, 1, 0]);
    } else if g == 5 {
      NoneOfGroup(w, ChatGroups[5], [1, 0, 1, 0, 0]);
    } else if g == 6 {
      NoneOfGroup(w, ChatGroups[6], [0, 0, 0, 1, 0]);
    } else {
      NoneOfGroup(w, ChatGroups[7], [1, 0, 1, 0, 0]);
    }
  }

  lemma MissesCanLast(w: string, g: nat)
    requires w == "can" && 8 <= g < 11
    ensures !AnyIn(w, ChatGroups[g])
  {
    if g == 8 {
      NoneOfGroup(w, ChatGroups[8], [2, 0, 1, 0, 0]);
    } else if g == 9 {
      NoneOfGroup(w, ChatGroups[9], [0, 0, 0, 0, 0]);
    } else {
      NoneOfGroup(w, ChatGroups[10], [0, 0, 0, 0, 0]);
    }
  }

  lemma MissesIFirst(w: string, g: nat)
    requires w == "i" && g < 4
    ensures !AnyIn(w, ChatGroups[g])
  {
    if g == 0 {
      NoneOfGroup(w, ChatGroups[0], [0, 0, 0, 0]);
    } else if g == 1 {
      NoneOfGroup(w, ChatGroups[1], [0, 0, 0, 0, 0]);
    } else if g == 2 {
      NoneOfGroup(w, ChatGroups[2], [0, 0, 0, 0, 1, 0]);
    } else {
      NoneOfGroup(w, ChatGroups[3], [0, 0, 0, 0, 0]);
    }
  }

  lemma MissesIMid(w: string, g: nat)
    requires w == "i" && 4 <= g < 8
    ensures !AnyIn(w, ChatGroups[g])
  {
    if g == 4 {
      NoneOfGroup(w, ChatGroups[4], [0, 0, 0, 0, 0, 0, 0, 0, 1]);
    } else if g == 5 {
      NoneOfGroup(w, ChatGroups[5], [0, 0, 0, 0, 0]);
    } else if g == 6 {
      NoneOfGroup(w, ChatGroups[6], [0, 0, 0, 0, 0]);
    } else {
      NoneOfGroup(w, ChatGroups[7], [0, 1, 0, 0, 0]);
    }
  }

  lemma MissesILast(w: string, g: nat)
    requires w == "i" && 8 <= g < 11
    ensures !AnyIn(w, ChatGroups[g])
  {
    if g == 8 {
      NoneOfGroup(w, ChatGroups[8], [0, 0, 0, 0, 1]);
    } else if g == 9 {
      NoneOfGroup(w, ChatGroups[9], [0, 0, 0, 0, 0]);
    } else {
      NoneOfGroup(w, ChatGroups[10], [0, 0, 0, 0, 0]);
    }
  }

  lemma MissesSucceedFirst(w: string, g: nat)
    requires w == "succeed" && g < 4
    ensures !AnyIn(w, ChatGroups[g])
  {
    if g == 0 {
      NoneOfGroup(w, ChatGroups[0], [0, 0, 0, 0]);
    } else if g == 1 {
      NoneOfGroup(w, ChatGroups[1], [0, 2, 0, 0, 0]);
    } else if g == 2 {
      NoneOfGroup(w, ChatGroups[2], [1, 0, 0, 1, 0, 1]);
    } else {
      NoneOfGroup(w, ChatGroups[3], [1, 0, 1, 2, 0]);
    }
  }

  lemma MissesSucceedMid(w: string, g: nat)
    requires w == "succeed" && 4 <= g < 8
    ensures !AnyIn(w, ChatGroups[g])
  {
    if g == 4 {
      NoneOfGroup(w, ChatGroups[4], [1, 1, 0, 0, 2, 1, 0, 1, 0]);
    } else if g == 5 {
      NoneOfGroup(w, ChatGroups[5], [0, 0, 0, 0, 0]);
    } else if g == 6 {
      NoneOfGroup(w, ChatGroups[6], [0, 1, 1, 1, 0]);
    } else {
      NoneOfGroup(w, ChatGroups[7], [0, 0, 0, 0, 1]);
    }
  }

  lemma MissesSucceedLast(w: string, g: nat)
    requires w == "succeed" && 8 <= g < 11
    ensures !AnyIn(w, ChatGroups[g])
  {
    if g == 8 {
      NoneOfGroup(w, ChatGroups[8], [0, 1, 0, 0, 0]);
    } else if g == 9 {
      NoneOfGroup(w, ChatGroups[9], [0, 1, 1, 0, 0]);
    } else {
      NoneOfGroup(w, ChatGroups[10], [0, 0, 0, 0, 0]);
    }
  }

  lemma MissesQuicklyQFirst(w: string, g: nat)
    requires w == "quickly?" && g < 4
    ensures !AnyIn(w, ChatGroups[g])
  {
    if g == 0 {
      NoneOfGroup(w, ChatGroups[0], [0, 0, 0, 0]);
    } else if g == 1 {
      NoneOfGroup(w, ChatGroups[1], [0, 0, 0, 0, 0]);
    } else if g == 2 {
      NoneOfGroup(w, ChatGroups[2], [0, 0, 0, 0, 1, 1]);
    } else {
      NoneOfGroup(w, ChatGroups[3], [0, 1, 0, 1, 0]);
    }
  }

  lemma MissesQuicklyQMid(w: string, g: nat)
    requires w == "quickly?" && 4 <= g < 8
    ensures !AnyIn(w, ChatGroups[g])
  {
    if g == 4 {
      NoneOfGroup(w, ChatGroups[4], [1, 1, 0, 4, 0, 0, 0, 1, 1]);
    } else if g == 5 {
      NoneOfGroup(w, ChatGroups[5], [0, 0, 0, 0, 0]);
    } else if g == 6 {
      NoneOfGroup(w, ChatGroups[6], [0, 0, 0, 1, 0]);
    } else {
      NoneOfGroup(w, ChatGroups[7], [0, 1, 0, 0, 0]);
    }
  }

  lemma MissesQuicklyQLast(w: string, g: nat)
    requires w == "quickly?" && 8 <= g < 11
    ensures !AnyIn(w, ChatGroups[g])
  {
    if g == 8 {
      NoneOfGroup(w, ChatGroups[8], [0, 0, 0, 0, 1]);
    } else if g == 9 {
      NoneOfGroup(w, ChatGroups[9], [0, 1, 0, 0, 0]);
    } else {
      NoneOfGroup(w, ChatGroups[10], [0, 0, 0, 0, 0]);
    }
  }
}
