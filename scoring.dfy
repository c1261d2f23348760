/** Keyword scoring: one counter per category, starting at zero, incremented
    once for every word that occurs in that category's keyword list. */
module Scoring {
  import opened EmotionTable

  /** How many of the words (counted with multiplicity) are keywords of the list. */
  function Matches(words: seq<string>, keywords: seq<string>): (n: nat)
    ensures n <= |words|
  {
    if words == [] then 0
    else Matches(words[..|words| - 1], keywords) + (if words[|words| - 1] in keywords then 1 else 0)
  }

  /** Counting over one more word adds one exactly when that word is a keyword. */
  lemma MatchesSnoc(words: seq<string>, i: nat, keywords: seq<string>)
    requires i < |words|
    ensures Matches(words[..i + 1], keywords)
         == Matches(words[..i], keywords) + (if words[i] in keywords then 1 else 0)
  {
    assert words[..i + 1][..i] == words[..i];
  }

  /** A score vector maps every category to its count. */
  predicate IsScoreVector(scores: map<Emotion, nat>)
  {
    forall e: Emotion :: e in scores
  }

  /** The scores the words should receive: per category, the number of words
      found in its keyword list. */
  function ScoresOf(words: seq<string>): (scores: map<Emotion, nat>)
    ensures IsScoreVector(scores)
    ensures forall e: Emotion :: scores[e] == Matches(words, Keywords(e))
  {
    AllDeclared();
    map e: Emotion | e in Declared :: Matches(words, Keywords(e))
  }

  /** The scoring loop of detect_emotion_with_scores: every category starts at
      zero; for each word in order and each category in declaration order, the
      category's count goes up by one when the word is one of its keywords.
      The keyword table is a parameter (the caller passes Keywords). */
  method ScoreWords(words: seq<string>, keywords: Emotion -> seq<string>) returns (scores: map<Emotion, nat>)
    ensures IsScoreVector(scores)
    ensures forall e: Emotion :: scores[e] == Matches(words, keywords(e))
  {
    AllDeclared();
    scores := map e: Emotion | e in Declared :: 0;
    for i := 0 to |words|
      invariant IsScoreVector(scores)
      invariant forall k :: 0 <= k < |Declared| ==> scores[Declared[k]] == Matches(words[..i], keywords(Declared[k]))
    {
      var word := words[i];
      for j := 0 to |Declared|
        invariant IsScoreVector(scores)
        invariant forall k :: 0 <= k < j ==> scores[Declared[k]] == Matches(words[..i + 1], keywords(Declared[k]))
        invariant forall k :: j <= k < |Declared| ==> scores[Declared[k]] == Matches(words[..i], keywords(Declared[k]))
      {
        var emotion := Declared[j];
        MatchesSnoc(words, i, keywords(emotion));
        if word in keywords(emotion) {
          scores := scores[emotion := scores[emotion] + 1];
        }
      }
    }
    assert words[..|words|] == words;
    forall e: Emotion ensures scores[e] == Matches(words, keywords(e)) {
      assert Declared[Index(e)] == e;
    }
  }

  /** Sum of all six scores. */
  function Total(scores: map<Emotion, nat>): nat
    requires IsScoreVector(scores)
  {
    scores[Happy] + scores[Sad] + scores[Angry] + scores[Surprise] + scores[Fear] + scores[Disgust]
  }

  /** No word is a keyword of two categories. */
  predicate Disjoint(keywords: Emotion -> seq<string>)
  {
    forall w, e1: Emotion, e2: Emotion :: w in keywords(e1) && w in keywords(e2) ==> e1 == e2
  }

  /** Sum over the six categories of the matches of the words. */
  function MatchesAll(words: seq<string>, keywords: Emotion -> seq<string>): nat
  {
    Matches(words, keywords(Happy)) + Matches(words, keywords(Sad)) + Matches(words, keywords(Angry))
    + Matches(words, keywords(Surprise)) + Matches(words, keywords(Fear)) + Matches(words, keywords(Disgust))
  }

  /** Number of keyword lists a word belongs to. */
  function ListsContaining(w: string, keywords: Emotion -> seq<string>): nat
  {
    (if w in keywords(Happy) then 1 else 0) + (if w in keywords(Sad) then 1 else 0)
    + (if w in keywords(Angry) then 1 else 0) + (if w in keywords(Surprise) then 1 else 0)
    + (if w in keywords(Fear) then 1 else 0) + (if w in keywords(Disgust) then 1 else 0)
  }

  /** With disjoint lists, every word raises the total by at most one, so the
      total never exceeds the number of words. */
  lemma {:induction false} MatchesAllAtMostWords(words: seq<string>, keywords: Emotion -> seq<string>)
    requires Disjoint(keywords)
    ensures MatchesAll(words, keywords) <= |words|
  {
    if words != [] {
      var n := |words| - 1;
      MatchesAllAtMostWords(words[..n], keywords);
      assert words[..n + 1] == words;
      forall e: Emotion
        ensures Matches(words, keywords(e)) == Matches(words[..n], keywords(e)) + (if words[n] in keywords(e) then 1 else 0)
      {
        MatchesSnoc(words, n, keywords(e));
      }
      assert ListsContaining(words[n], keywords) <= 1;
    }
  }

  /** The keyword table of the classifier has disjoint lists. */
  lemma KeywordTableDisjoint()
    ensures Disjoint(Keywords)
  {
    forall w, e1: Emotion, e2: Emotion | w in Keywords(e1) && w in Keywords(e2) ensures e1 == e2 {
      KeywordsDisjoint(w, e1, e2);
    }
  }

  /** The scores of the classifier sum to at most the number of words. */
  lemma TotalAtMostWords(words: seq<string>)
    ensures Total(ScoresOf(words)) <= |words|
  {
    KeywordTableDisjoint();
    MatchesAllAtMostWords(words, Keywords);
  }

  /** Words none of which is in the list match nothing. */
  lemma {:induction false} NoMatches(words: seq<string>, keywords: seq<string>)
    requires forall i :: 0 <= i < |words| ==> words[i] !in keywords
    ensures Matches(words, keywords) == 0
  {
    if words != [] {
      NoMatches(words[..|words| - 1], keywords);
    }
  }

  /** Words none of which is a keyword leave every score at zero. */
  lemma NoKeywordsAllZero(words: seq<string>)
    requires forall i, e: Emotion :: 0 <= i < |words| ==> words[i] !in Keywords(e)
    ensures forall e: Emotion :: ScoresOf(words)[e] == 0
  {
    forall e: Emotion ensures ScoresOf(words)[e] == 0 {
      NoMatches(words, Keywords(e));
    }
  }
}
