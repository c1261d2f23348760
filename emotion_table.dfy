/** The static emotion table of the classifier: six categories, each with a
    keyword list, a display glyph and a display colour, in a fixed declaration
    order (the order in which the source's dictionary is written and iterated). */
module EmotionTable {

  datatype Option<T> = None | Some(value: T)

  /** The six keys of the table. */
  datatype Emotion = Happy | Sad | Angry | Surprise | Fear | Disgust

  /** Declaration order of the table: the iteration order of every loop over it. */
  const Declared: seq<Emotion> := [Happy, Sad, Angry, Surprise, Fear, Disgust]

  /** Position of a category in the declaration order. */
  function Index(e: Emotion): (k: nat)
    ensures k < |Declared| && Declared[k] == e
  {
    match e
    case Happy => 0
    case Sad => 1
    case Angry => 2
    case Surprise => 3
    case Fear => 4
    case Disgust => 5
  }

  /** Every category is declared. */
  lemma AllDeclared()
    ensures forall e: Emotion :: e in Declared
  {
    forall e: Emotion ensures e in Declared {
      assert Declared[Index(e)] == e;
    }
  }

  /** Each category is declared exactly once. */
  lemma DeclaredDistinct(i: nat, j: nat)
    requires i < |Declared| && j < |Declared|
    ensures Declared[i] == Declared[j] <==> i == j
  {
    assert Index(Declared[i]) == i;
    assert Index(Declared[j]) == j;
  }

  /** The dictionary key of a category. */
  function Name(e: Emotion): string
  {
    match e
    case Happy => "Happy"
    case Sad => "Sad"
    case Angry => "Angry"
    case Surprise => "Surprise"
    case Fear => "Fear"
    case Disgust => "Disgust"
  }

  /** Lookup of a table entry by its key string; None where the dictionary
      would raise KeyError. */
  function EmotionNamed(name: string): (r: Option<Emotion>)
    ensures r.Some? ==> Name(r.value) == name
    ensures forall e: Emotion :: Name(e) == name ==> r == Some(e)
  {
    if name == "Happy" then Some(Happy)
    else if name == "Sad" then Some(Sad)
    else if name == "Angry" then Some(Angry)
    else if name == "Surprise" then Some(Surprise)
    else if name == "Fear" then Some(Fear)
    else if name == "Disgust" then Some(Disgust)
    else None
  }

  /** The keyword list of a category, matched by list membership. */
  function Keywords(e: Emotion): seq<string>
  {
    match e
    case Happy =>
      ["joy", "happy", "great", "awesome", "good", "love", "amazing", "fun", "superb", "excited"]
    case Sad =>
      ["sad", "bad", "worst", "unhappy", "cry", "difficult", "stress", "low", "depressed", "gloomy",
       "disappointed"]
    case Angry =>
      ["angry", "mad", "hate", "stupid", "fight", "annoyed", "terrible", "frustrated", "rage", "furious"]
    case Surprise =>
      ["wow", "surprise", "unbelievable", "shocking", "unexpected", "oh my god", "unforeseen", "suddenly"]
    case Fear =>
      ["fear", "scary", "afraid", "terrifying", "danger", "horrible", "anxiety", "panic", "nervous",
       "worried"]
    case Disgust =>
      ["disgust", "gross", "ugly", "nasty", "awful", "vomit", "yuck", "repulsive", "sickening"]
  }

  /** The display glyph of a category (treated as an opaque constant string). */
  function Emoji(e: Emotion): string
  {
    match e
    case Happy => "\U{1F60A}"
    case Sad => "\U{1F622}"
    case Angry => "\U{1F620}"
    case Surprise => "\U{1F632}"
    case Fear => "\U{1F628}"
    case Disgust => "\U{1F922}"
  }

  /** The display colour of a category. */
  function Color(e: Emotion): string
  {
    match e
    case Happy => "#28a745"
    case Sad => "#dc3545"
    case Angry => "#ffc107"
    case Surprise => "#17a2b8"
    case Fear => "#6f42c1"
    case Disgust => "#795548"
  }

  /** The gray used for the Neutral and the Mixed verdicts. */
  const Gray: string := "#6c757d"

  /** No word belongs to two keyword lists. */
  lemma KeywordsDisjoint(w: string, e1: Emotion, e2: Emotion)
    requires w in Keywords(e1) && w in Keywords(e2)
    ensures e1 == e2
  {
    if Index(e1) < Index(e2) {
      OnlyLaterLists(w, e1);
    } else if Index(e2) < Index(e1) {
      OnlyLaterLists(w, e2);
    }
  }

  /** A keyword of a category occurs in no list declared after it. */
  lemma OnlyLaterLists(w: string, e: Emotion)
    requires w in Keywords(e)
    ensures forall e': Emotion :: Index(e) < Index(e') ==> w !in Keywords(e')
  {
    match e
    case Happy => HappyOnly(w);
    case Sad => SadOnly(w);
    case Angry => AngryOnly(w);
    case Surprise => SurpriseOnly(w);
    case Fear => FearOnly(w);
    case Disgust =>
  }

  lemma HappyOnly(w: string)
    requires w in Keywords(Happy)
    ensures w !in Keywords(Sad) && w !in Keywords(Angry) && w !in Keywords(Surprise)
    ensures w !in Keywords(Fear) && w !in Keywords(Disgust)
  {
  }

  lemma SadOnly(w: string)
    requires w in Keywords(Sad)
    ensures w !in Keywords(Angry) && w !in Keywords(Surprise)
    ensures w !in Keywords(Fear) && w !in Keywords(Disgust)
  {
  }

  lemma AngryOnly(w: string)
    requires w in Keywords(Angry)
    ensures w !in Keywords(Surprise) && w !in Keywords(Fear) && w !in Keywords(Disgust)
  {
  }

  lemma SurpriseOnly(w: string)
    requires w in Keywords(Surprise)
    ensures w !in Keywords(Fear) && w !in Keywords(Disgust)
  {
  }

  lemma FearOnly(w: string)
    requires w in Keywords(Fear)
    ensures w !in Keywords(Disgust)
  {
  }
}
