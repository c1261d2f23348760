/** Winner resolution: one scan over the scores in declaration order decides
    between a single category, Mixed and Neutral. The scan is proved equal to a
    closed form: Neutral when every score is zero, the category when it is the
    unique highest score, Mixed when two or more categories share a positive
    highest score. */
module Resolution {
  import opened EmotionTable
  import opened Scoring

  /** The value of detected_emotion: a category name, 'Mixed' or 'Neutral'. */
  datatype Detected = Neutral | Mixed | Winner(emotion: Emotion)

  /** The scores in declaration order (list(emotion_scores.values())). */
  function Values(scores: map<Emotion, nat>): (v: seq<nat>)
    requires IsScoreVector(scores)
    ensures |v| == |Declared|
    ensures forall k :: 0 <= k < |Declared| ==> v[k] == scores[Declared[k]]
  {
    seq(|Declared|, k requires 0 <= k < |Declared| => scores[Declared[k]])
  }

  /** The highest score, or 0 when there are none. */
  function MaxOf(v: seq<nat>): (m: nat)
    ensures forall j :: 0 <= j < |v| ==> v[j] <= m
    ensures m == 0 || exists j :: 0 <= j < |v| && v[j] == m
  {
    if v == [] then 0
    else
      var m := MaxOf(v[..|v| - 1]);
      if v[|v| - 1] > m then v[|v| - 1] else m
  }

  /** How many entries equal x. */
  function Occurrences(v: seq<nat>, x: nat): (n: nat)
    ensures n == 0 <==> forall j :: 0 <= j < |v| ==> v[j] != x
  {
    if v == [] then 0
    else Occurrences(v[..|v| - 1], x) + (if v[|v| - 1] == x then 1 else 0)
  }

  /** The position of the last entry equal to x. */
  function LastIndexOf(v: seq<nat>, x: nat): (k: nat)
    requires exists j :: 0 <= j < |v| && v[j] == x
    ensures k < |v| && v[k] == x
    ensures forall j :: k < j < |v| ==> v[j] != x
  {
    if v[|v| - 1] == x then |v| - 1
    else
      assert forall j :: 0 <= j < |v| - 1 ==> v[..|v| - 1][j] == v[j];
      LastIndexOf(v[..|v| - 1], x)
  }

  /** The closed form over the first |v| categories of the declaration order. */
  function Classify(v: seq<nat>): Detected
    requires |v| <= |Declared|
  {
    var m := MaxOf(v);
    if m == 0 then Neutral
    else if Occurrences(v, m) == 1 then Winner(Declared[LastIndexOf(v, m)])
    else Mixed
  }

  /** The closed form over a whole score vector. */
  function Classification(scores: map<Emotion, nat>): Detected
    requires IsScoreVector(scores)
  {
    Classify(Values(scores))
  }

  /** An entry occurs once exactly when no other position holds it. */
  lemma {:induction false} OccursOnce(v: seq<nat>, k: nat)
    requires k < |v|
    ensures Occurrences(v, v[k]) == 1 <==> forall j :: 0 <= j < |v| && j != k ==> v[j] != v[k]
  {
    var n := |v| - 1;
    var p := v[..n];
    if k < n {
      assert p[k] == v[k];
      OccursOnce(p, k);
      assert forall j :: 0 <= j < n ==> p[j] == v[j];
    } else {
      assert forall j :: 0 <= j < n ==> p[j] == v[j];
    }
  }

  /** What one more score does to the closed form: a strictly higher score
      wins outright, an equal positive score makes the result Mixed, anything
      else leaves it unchanged. */
  lemma ClassifyStep(v: seq<nat>, x: nat)
    requires |v| < |Declared|
    ensures Classify(v + [x])
         == if x > MaxOf(v) then Winner(Declared[|v|])
            else if x == MaxOf(v) && x > 0 then Mixed
            else Classify(v)
  {
    var w := v + [x];
    assert w[..|w| - 1] == v;
    var m := MaxOf(v);
    if x > m {
      assert Occurrences(v, x) == 0;
      assert Occurrences(w, x) == 1;
    } else if x == m && x > 0 {
      assert Occurrences(v, x) >= 1;
    } else if m > 0 {
      assert Occurrences(w, m) == Occurrences(v, m);
      assert w[|w| - 1] != m;
    }
  }

  /** The scan is Neutral exactly while the highest score is zero. */
  lemma ClassifyNeutral(v: seq<nat>)
    requires |v| <= |Declared|
    ensures Classify(v) == Neutral <==> MaxOf(v) == 0
    ensures Classify(v) == Neutral <==> forall j :: 0 <= j < |v| ==> v[j] == 0
  {
    if MaxOf(v) > 0 {
      var j :| 0 <= j < |v| && v[j] == MaxOf(v);
    }
  }

  /** A later, strictly higher score overrides an earlier Mixed. */
  lemma HigherOverridesMixed(v: seq<nat>, x: nat)
    requires |v| < |Declared|
    requires Classify(v) == Mixed && x > MaxOf(v)
    ensures Classify(v + [x]) == Winner(Declared[|v|])
  {
    ClassifyStep(v, x);
  }

  /** The scan of detect_emotion_with_scores, as written: a strictly higher
      score takes over; an equal positive score, once some category has been
      seen, turns the verdict to Mixed; a zero maximum forces Neutral. */
  method ResolveWinner(scores: map<Emotion, nat>) returns (detected: Detected)
    requires IsScoreVector(scores)
    ensures detected == Classification(scores)
  {
    var values := Values(scores);
    var maxScore: nat := 0;
    detected := Neutral;
    for i := 0 to |Declared|
      invariant maxScore == MaxOf(values[..i])
      invariant detected == Classify(values[..i])
    {
      var emotion := Declared[i];
      var score := scores[emotion];
      assert values[..i + 1] == values[..i] + [score];
      ClassifyStep(values[..i], score);
      ClassifyNeutral(values[..i]);
      assert values[..i + 1][..i] == values[..i];
      // Once a positive maximum has been seen, some category has set the
      // verdict, so the test against Neutral below never fails.
      assert score == maxScore && score > 0 ==> detected != Neutral;
      if score > maxScore {
        maxScore := score;
        detected := Winner(emotion);
      } else if score == maxScore && score > 0 && detected != Neutral {
        detected := Mixed;
      }
    }
    assert values[..|Declared|] == values;
    // The scan has already left the verdict at Neutral when the maximum is zero.
    assert maxScore == 0 ==> detected == Neutral;
    if maxScore == 0 {
      detected := Neutral;
    }
  }

  /** Every score is zero exactly when the verdict is Neutral. */
  lemma NeutralIffAllZero(scores: map<Emotion, nat>)
    requires IsScoreVector(scores)
    ensures Classification(scores) == Neutral <==> forall e: Emotion :: scores[e] == 0
  {
    ClassifyNeutral(Values(scores));
    forall e: Emotion ensures Values(scores)[Index(e)] == scores[e] { }
  }

  /** A category is the verdict exactly when it holds the unique highest score
      and that score is positive. */
  lemma WinnerIffUniqueMax(scores: map<Emotion, nat>, e: Emotion)
    requires IsScoreVector(scores)
    ensures Classification(scores) == Winner(e)
        <==> scores[e] > 0 && forall e': Emotion :: e' != e ==> scores[e'] < scores[e]
  {
    var v := Values(scores);
    var k := Index(e);
    var m := MaxOf(v);
    assert v[k] == scores[e];
    OccursOnce(v, k);
    if scores[e] > 0 && forall e': Emotion :: e' != e ==> scores[e'] < scores[e] {
      forall j | 0 <= j < |v| && j != k ensures v[j] < v[k] {
        DeclaredDistinct(j, k);
      }
      assert m == v[k];
      assert LastIndexOf(v, m) == k;
    }
    if Classification(scores) == Winner(e) {
      var l := LastIndexOf(v, m);
      DeclaredDistinct(l, k);
      assert l == k;
      forall e': Emotion | e' != e ensures scores[e'] < scores[e] {
        assert v[Index(e')] == scores[e'];
      }
    }
  }

  /** Two different categories sharing the highest score, which is positive. */
  predicate TiedAtMax(scores: map<Emotion, nat>)
    requires IsScoreVector(scores)
  {
    exists e1: Emotion, e2: Emotion :: e1 != e2 && scores[e1] == scores[e2] > 0
      && forall e: Emotion :: scores[e] <= scores[e1]
  }

  /** The verdict is Mixed exactly when two different categories share the
      highest score and it is positive. */
  lemma MixedIffTiedMax(scores: map<Emotion, nat>)
    requires IsScoreVector(scores)
    ensures Classification(scores) == Mixed <==> TiedAtMax(scores)
  {
    if Classification(scores) == Mixed {
      MixedIsTied(scores);
    }
    if TiedAtMax(scores) {
      TiedIsMixed(scores);
    }
  }

  lemma MixedIsTied(scores: map<Emotion, nat>)
    requires IsScoreVector(scores)
    requires Classification(scores) == Mixed
    ensures TiedAtMax(scores)
  {
    var v := Values(scores);
    var m := MaxOf(v);
    var k :| 0 <= k < |v| && v[k] == m;
    OccursOnce(v, k);
    var j :| 0 <= j < |v| && j != k && v[j] == v[k];
    DeclaredDistinct(j, k);
    forall e: Emotion ensures scores[e] <= scores[Declared[k]] {
      assert v[Index(e)] == scores[e];
    }
    assert scores[Declared[j]] == scores[Declared[k]];
  }

  lemma TiedIsMixed(scores: map<Emotion, nat>)
    requires IsScoreVector(scores)
    requires TiedAtMax(scores)
    ensures Classification(scores) == Mixed
  {
    var e1: Emotion, e2: Emotion :| e1 != e2 && scores[e1] == scores[e2] > 0
       && forall e: Emotion :: scores[e] <= scores[e1];
    NeutralIffAllZero(scores);
    if Classification(scores).Winner? {
      var w := Classification(scores).emotion;
      WinnerIffUniqueMax(scores, w);
      assert false;
    }
  }
}
