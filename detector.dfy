/** detect_emotion_with_scores end to end: preprocess the text, score the words,
    resolve the winner, and map it to a display label, a colour and the three
    parallel chart lists. */
module Detector {
  import opened EmotionTable
  import opened Preprocessing
  import opened Scoring
  import opened Resolution

  const MixedLabel: string := "Mixed / Ambiguous \U{1F914}"
  const NeutralLabel: string := "Neutral \U{1F610}"

  /** The display label of a verdict: the category name, a space and its glyph,
      or the fixed Mixed and Neutral labels. */
  function FinalResult(d: Detected): string
  {
    match d
    case Mixed => MixedLabel
    case Neutral => NeutralLabel
    case Winner(e) => Name(e) + " " + Emoji(e)
  }

  /** The display colour of a verdict: the category's colour, or gray. */
  function ResultColor(d: Detected): string
  {
    match d
    case Mixed => Gray
    case Neutral => Gray
    case Winner(e) => Color(e)
  }

  lemma NeutralDisplay(d: Detected)
    requires d == Neutral
    ensures FinalResult(d) == NeutralLabel && ResultColor(d) == Gray
  {
  }

  /** Different verdicts are displayed with different labels. */
  lemma FinalResultInjective(d1: Detected, d2: Detected)
    requires FinalResult(d1) == FinalResult(d2)
    ensures d1 == d2
  {
    var l := FinalResult(d1);
    assert l[0] == FinalResult(d2)[0];
    if d1.Winner? && d2.Winner? {
      assert l[1] == FinalResult(d2)[1];
    }
  }

  /** The verdict the classifier should reach for a text. */
  function Verdict(text: string, correct: Corrector): Detected
  {
    Classification(ScoresOf(Preprocess(text, correct)))
  }

  /** detect_emotion_with_scores: returns the label, the chart labels, chart
      scores and chart colours in declaration order, the label colour and the
      score map. */
  method DetectEmotionWithScores(text: string, correct: Corrector)
    returns (finalResult: string, chartLabels: seq<string>, chartData: seq<nat>,
             chartColors: seq<string>, resultColor: string, emotionScores: map<Emotion, nat>)
    ensures emotionScores == ScoresOf(Preprocess(text, correct))
    ensures forall e: Emotion :: e in emotionScores
    ensures finalResult == FinalResult(Verdict(text, correct))
    ensures resultColor == ResultColor(Verdict(text, correct))
    ensures |chartLabels| == |chartData| == |chartColors| == |Declared|
    ensures forall k :: 0 <= k < |Declared| ==>
              chartLabels[k] == Name(Declared[k])
              && EmotionNamed(chartLabels[k]) == Some(Declared[k])
              && chartData[k] == emotionScores[Declared[k]]
              && chartColors[k] == Color(Declared[k])
  {
    var words := Preprocess(text, correct);
    emotionScores := ScoreWords(words, Keywords);
    assert emotionScores == ScoresOf(words);
    var detected := ResolveWinner(emotionScores);
    if detected == Mixed {
      finalResult := MixedLabel;
      resultColor := Gray;
    } else if detected == Neutral {
      finalResult := NeutralLabel;
      resultColor := Gray;
    } else {
      finalResult := Name(detected.emotion) + " " + Emoji(detected.emotion);
      resultColor := Color(detected.emotion);
    }
    chartLabels := seq(|Declared|, k requires 0 <= k < |Declared| => Name(Declared[k]));
    chartData := Values(emotionScores);
    chartColors := seq(|chartLabels|, k requires 0 <= k < |chartLabels| =>
      match EmotionNamed(chartLabels[k])
      case Some(e) => Color(e)
      case None => "");
  }

  /** Inputs that differ only in letter case get the same scores and verdict. */
  lemma VerdictIgnoresCase(s: string, t: string, correct: Corrector)
    requires |s| == |t|
    requires forall i :: 0 <= i < |s| ==> LowerChar(s[i]) == LowerChar(t[i])
    ensures ScoresOf(Preprocess(s, correct)) == ScoresOf(Preprocess(t, correct))
    ensures Verdict(s, correct) == Verdict(t, correct)
  {
    PreprocessIgnoresCase(s, t, correct);
  }

  /** When every score is zero the result is the Neutral label in gray. */
  lemma AllZeroIsNeutral(scores: map<Emotion, nat>)
    requires IsScoreVector(scores)
    requires forall e: Emotion :: scores[e] == 0
    ensures FinalResult(Classification(scores)) == NeutralLabel
    ensures ResultColor(Classification(scores)) == Gray
  {
    NeutralIffAllZero(scores);
  }

  /** A unique positive highest score gives that category's name and glyph in
      its own colour. */
  lemma UniqueMaxIsWinner(scores: map<Emotion, nat>, e: Emotion)
    requires IsScoreVector(scores)
    requires scores[e] > 0 && forall e': Emotion :: e' != e ==> scores[e'] < scores[e]
    ensures FinalResult(Classification(scores)) == Name(e) + " " + Emoji(e)
    ensures ResultColor(Classification(scores)) == Color(e)
  {
    WinnerIffUniqueMax(scores, e);
  }

  /** A positive highest score shared by two categories gives the Mixed label
      in gray, whichever two categories they are. */
  lemma TiedMaxIsMixed(scores: map<Emotion, nat>, e1: Emotion, e2: Emotion)
    requires IsScoreVector(scores)
    requires e1 != e2 && scores[e1] == scores[e2] > 0
    requires forall e: Emotion :: scores[e] <= scores[e1]
    ensures FinalResult(Classification(scores)) == MixedLabel
    ensures ResultColor(Classification(scores)) == Gray
  {
    MixedIffTiedMax(scores);
  }

  /** An empty or punctuation-only input is Neutral, whether correction fails
      or returns a text without word characters (such as the text unchanged). */
  lemma PunctuationOnlyIsNeutral(text: string, correct: Corrector)
    requires forall i :: 0 <= i < |text| ==> !IsWordChar(text[i])
    requires correct(Lower(text)).Corrected? ==>
               forall i :: 0 <= i < |correct(Lower(text)).text| ==> !IsWordChar(correct(Lower(text)).text[i])
    ensures Verdict(text, correct) == Neutral
    ensures FinalResult(Verdict(text, correct)) == NeutralLabel
    ensures ResultColor(Verdict(text, correct)) == Gray
  {
    PunctuationOnlyNoWords(text, correct);
    NoWordsIsNeutral();
    NeutralDisplay(Verdict(text, correct));
  }

  /** No words at all: every score is zero and the verdict is Neutral. */
  lemma NoWordsIsNeutral()
    ensures forall e: Emotion :: ScoresOf([])[e] == 0
    ensures Classification(ScoresOf([])) == Neutral
  {
    NeutralIffAllZero(ScoresOf([]));
  }

  /** The keyword "oh my god" contains spaces, so it is never a word and
      never scores. */
  lemma OhMyGodNeverMatches(text: string, correct: Corrector)
    ensures "oh my god" !in Preprocess(text, correct)
  {
    var phrase := "oh my god";
    assert !IsWordChar(phrase[2]);
    PhraseNeverToken(CorrectedText(text, correct), phrase, 2);
  }

  /** The words "happy" and "sad" tie the first two categories at 1, which is
      Mixed. */
  lemma FirstTwoTieIsMixed()
    ensures Classification(ScoresOf(["happy", "sad"])) == Mixed
  {
    var scores := ScoresOf(["happy", "sad"]);
    HappySadCounts();
    TotalAtMostWords(["happy", "sad"]);
    assert forall e: Emotion :: scores[e] <= scores[Happy];
    TiedIsMixed(scores);
  }

  lemma HappySadCounts()
    ensures ScoresOf(["happy", "sad"])[Happy] == 1 && ScoresOf(["happy", "sad"])[Sad] == 1
  {
    MatchesPair("happy", "sad", Keywords(Happy));
    MatchesPair("happy", "sad", Keywords(Sad));
  }

  lemma MatchesPair(a: string, b: string, keywords: seq<string>)
    ensures Matches([a, b], keywords) == (if a in keywords then 1 else 0) + (if b in keywords then 1 else 0)
  {
    assert [a, b][..1] == [a];
    assert [a][..0] == [];
  }

  /** "this is awesome", whether or not correction leaves it as it is, scores
      Happy once and nothing else, and is labelled Happy. */
  lemma SingleKeywordIsHappy(correct: Corrector)
    requires correct("this is awesome") in {CorrectionFailed, Corrected("this is awesome")}
    ensures Verdict("this is awesome", correct) == Winner(Happy)
    ensures FinalResult(Verdict("this is awesome", correct)) == Name(Happy) + " " + Emoji(Happy)
    ensures ResultColor(Verdict("this is awesome", correct)) == Color(Happy)
  {
    ThisIsAwesomeWords(correct);
    ThisIsAwesomeScores();
    var scores := ScoresOf(["this", "is", "awesome"]);
    WinnerIffUniqueMax(scores, Happy);
    assert Verdict("this is awesome", correct) == Classification(scores) == Winner(Happy);
    WinnerDisplay(Verdict("this is awesome", correct), Happy);
  }

  lemma WinnerDisplay(d: Detected, e: Emotion)
    requires d == Winner(e)
    ensures FinalResult(d) == Name(e) + " " + Emoji(e) && ResultColor(d) == Color(e)
  {
  }

  lemma ThisIsAwesomeWords(correct: Corrector)
    requires correct("this is awesome") in {CorrectionFailed, Corrected("this is awesome")}
    ensures Preprocess("this is awesome", correct) == ["this", "is", "awesome"]
  {
    PreprocessLowercase("this is awesome", correct);
    ThisIsAwesomeTokens();
  }

  lemma ThisIsAwesomeTokens()
    ensures Tokenize("this is awesome") == ["this", "is", "awesome"]
  {
    assert "this is awesome" == "this" + [' '] + ("is" + [' '] + "awesome");
    ThreeWords("this", "is", "awesome");
  }

  lemma ThreeWords(a: string, b: string, c: string)
    requires IsWord(a) && IsWord(b) && IsWord(c)
    ensures Tokenize(a + [' '] + (b + [' '] + c)) == [a, b, c]
  {
    TokenizeSplit(a, ' ', b + [' '] + c);
    TokenizeSplit(b, ' ', c);
    WordIsOneToken(a);
    WordIsOneToken(b);
    WordIsOneToken(c);
  }

  lemma ThisIsAwesomeScores()
    ensures ScoresOf(["this", "is", "awesome"])[Happy] == 1
    ensures forall e: Emotion :: e != Happy ==> ScoresOf(["this", "is", "awesome"])[e] == 0
  {
    var words := ["this", "is", "awesome"];
    assert words[..2] == ["this", "is"];
    MatchesSnoc(words, 2, Keywords(Happy));
    MatchesPair("this", "is", Keywords(Happy));
    forall e: Emotion | e != Happy ensures ScoresOf(words)[e] == 0 {
      NotKeywords(e);
      if "awesome" in Keywords(e) {
        KeywordsDisjoint("awesome", Happy, e);
      }
      NoMatches(words, Keywords(e));
    }
  }

  lemma NotKeywords(e: Emotion)
    ensures "this" !in Keywords(e) && "is" !in Keywords(e)
  {
    match e
    case Happy => assert "this" !in Keywords(Happy);
    case Sad => assert "this" !in Keywords(Sad);
    case Angry => assert "this" !in Keywords(Angry);
    case Surprise => assert "this" !in Keywords(Surprise);
    case Fear => assert "this" !in Keywords(Fear);
    case Disgust => assert "this" !in Keywords(Disgust);
  }
}
