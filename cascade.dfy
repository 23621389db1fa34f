/** The `if any(k in text for k in group1): ... elif any(...): ...` pattern that every keyword
    classifier of the system is written in: the first group with a keyword occurring in the
    text decides. */
module Cascade {
  import opened Wrappers
  import opened PyStrings

  /** `any(k in text for k in keywords)` */
  predicate AnyIn(text: string, keywords: seq<string>)
  {
    exists j :: 0 <= j < |keywords| && Contains(text, keywords[j])
  }

  /** The first group, from position `from` on, with a keyword in `text`. */
  function FirstGroupFrom(text: string, groups: seq<seq<string>>, from: nat): (r: Option<nat>)
    ensures r.Some? ==> from <= r.value < |groups| && AnyIn(text, groups[r.value])
    ensures r.Some? ==> forall j :: from <= j < r.value ==> !AnyIn(text, groups[j])
    ensures r.None? ==> forall j :: from <= j < |groups| ==> !AnyIn(text, groups[j])
    decreases |groups| - from
  {
    if from >= |groups| then None
    else if AnyIn(text, groups[from]) then Some(from)
    else FirstGroupFrom(text, groups, from + 1)
  }

  /** The index of the branch an if/elif chain of `any(...)` tests takes, None for its else. */
  function FirstGroup(text: string, groups: seq<seq<string>>): (r: Option<nat>)
    ensures r.Some? ==> r.value < |groups| && AnyIn(text, groups[r.value])
    ensures r.Some? ==> forall j :: 0 <= j < r.value ==> !AnyIn(text, groups[j])
    ensures r.None? ==> forall j :: 0 <= j < |groups| ==> !AnyIn(text, groups[j])
  {
    FirstGroupFrom(text, groups, 0)
  }

  /** The branch taken is the only one that hits with no earlier branch hitting. */
  lemma FirstGroupIs(text: string, groups: seq<seq<string>>, i: nat)
    requires i < |groups| && AnyIn(text, groups[i])
    requires forall j :: 0 <= j < i ==> !AnyIn(text, groups[j])
    ensures FirstGroup(text, groups) == Some(i)
  {
  }

  /** A keyword found at a known position makes its group hit. */
  lemma HitAt(text: string, keywords: seq<string>, j: nat, at: nat)
    requires j < |keywords| && at + |keywords[j]| <= |text|
    requires text[at..at + |keywords[j]|] == keywords[j]
    ensures AnyIn(text, keywords)
  {
    assert OccursAt(text, keywords[j], at);
  }

  /** `a` is never directly followed by `b` in `text`. */
  predicate PairAbsent(text: string, a: char, b: char)
  {
    forall i :: 0 <= i < |text| - 1 ==> !(text[i] == a && text[i + 1] == b)
  }

  /** No keyword of a group occurs in `text`: for keyword `j`, either its character at
      `at[j]` is missing from the text or that character is never followed by the next one. */
  lemma {:induction false} NoneOfGroup(text: string, keywords: seq<string>, at: seq<nat>)
    requires |at| == |keywords|
    requires forall j :: 0 <= j < |keywords| ==>
      at[j] < |keywords[j]| &&
      (keywords[j][at[j]] !in text || (at[j] + 1 < |keywords[j]| && PairAbsent(text, keywords[j][at[j]], keywords[j][at[j] + 1])))
    ensures !AnyIn(text, keywords)
  {
    forall j | 0 <= j < |keywords|
      ensures !Contains(text, keywords[j])
    {
      if keywords[j][at[j]] !in text {
        AbsentByChar(text, keywords[j], at[j]);
      } else {
        AbsentByPair(text, keywords[j], at[j]);
      }
    }
  }

  /** A keyword without the character `c` occurs in `x + [c] + y` exactly when it occurs in
      `x` or in `y`. */
  lemma ContainsAcross(x: string, c: char, y: string, k: string)
    requires c !in k
    ensures Contains(x + [c] + y, k) <==> Contains(x, k) || Contains(y, k)
  {
    var s := x + [c] + y;
    if Contains(s, k) {
      var i :| 0 <= i <= |s| - |k| && OccursAt(s, k, i);
      if i + |k| <= |x| {
        assert s[i..i + |k|] == x[i..i + |k|];
        assert OccursAt(x, k, i);
      } else {
        assert forall p :: i <= p < i + |k| ==> s[p] == k[p - i];
        assert s[|x|] == c && c !in k;
        assert i > |x|;
        assert s[i..i + |k|] == y[i - |x| - 1..i - |x| - 1 + |k|];
        assert OccursAt(y, k, i - |x| - 1);
      }
    }
    if Contains(x, k) {
      var i :| 0 <= i <= |x| - |k| && OccursAt(x, k, i);
      assert s[i..i + |k|] == x[i..i + |k|];
      assert OccursAt(s, k, i);
    }
    if Contains(y, k) {
      var i :| 0 <= i <= |y| - |k| && OccursAt(y, k, i);
      assert s[|x| + 1 + i..|x| + 1 + i + |k|] == y[i..i + |k|];
      assert OccursAt(s, k, |x| + 1 + i);
    }
  }

  /** Over a text of space-separated words, a group without spaces in its keywords hits
      exactly when it hits one of the words. */
  lemma {:induction false} AnyInJoin(words: seq<string>, keywords: seq<string>)
    requires |words| > 0
    requires forall j :: 0 <= j < |keywords| ==> ' ' !in keywords[j]
    ensures AnyIn(Join(words, " "), keywords) <==> exists i :: 0 <= i < |words| && AnyIn(words[i], keywords)
    decreases |words|
  {
    if |words| > 1 {
      var tail := words[1..];
      var rest := Join(tail, " ");
      AnyInJoin(tail, keywords);
      assert Join(words, " ") == words[0] + [' '] + rest;
      forall j | 0 <= j < |keywords|
        ensures Contains(Join(words, " "), keywords[j]) <==> Contains(words[0], keywords[j]) || Contains(rest, keywords[j])
      {
        ContainsAcross(words[0], ' ', rest, keywords[j]);
      }
      if exists i :: 0 <= i < |tail| && AnyIn(tail[i], keywords) {
        var i :| 0 <= i < |tail| && AnyIn(tail[i], keywords);
        assert words[i + 1] == tail[i];
      }
      if exists i :: 0 <= i < |words| && AnyIn(words[i], keywords) {
        var i :| 0 <= i < |words| && AnyIn(words[i], keywords);
        if i > 0 {
          assert tail[i - 1] == words[i];
        }
      }
    }
  }

  /** Over a text of space-separated words, with no keyword holding a space, the branch taken
      is the first group hit by one of the words. */
  lemma WordsDecide(words: seq<string>, groups: seq<seq<string>>, n: nat)
    requires |words| > 0 && n < |groups|
    requires forall g, j :: 0 <= g < |groups| && 0 <= j < |groups[g]| ==> ' ' !in groups[g][j]
    requires forall g, i :: 0 <= g < n && 0 <= i < |words| ==> !AnyIn(words[i], groups[g])
    requires exists i :: 0 <= i < |words| && AnyIn(words[i], groups[n])
    ensures FirstGroup(Join(words, " "), groups) == Some(n)
  {
    var text := Join(words, " ");
    forall g | 0 <= g <= n
      ensures AnyIn(text, groups[g]) <==> exists i :: 0 <= i < |words| && AnyIn(words[i], groups[g])
    {
      AnyInJoin(words, groups[g]);
    }
    FirstGroupIs(text, groups, n);
  }

  /** Over a text of space-separated words, with no keyword holding a space, no branch is
      taken when no word hits any group. */
  lemma WordsMissAll(words: seq<string>, groups: seq<seq<string>>)
    requires |words| > 0
    requires forall g, j :: 0 <= g < |groups| && 0 <= j < |groups[g]| ==> ' ' !in groups[g][j]
    requires forall g, i :: 0 <= g < |groups| && 0 <= i < |words| ==> !AnyIn(words[i], groups[g])
    ensures FirstGroup(Join(words, " "), groups) == None
  {
    var text := Join(words, " ");
    forall g | 0 <= g < |groups|
      ensures !AnyIn(text, groups[g])
    {
      AnyInJoin(words, groups[g]);
    }
  }
}
