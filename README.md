# Keyword emotion classifier — a Dafny model

This project models the classification core of a small Flask application.
The core takes a free-text input and returns one of six emotion categories
(Happy, Sad, Angry, Surprise, Fear, Disgust), `Mixed` or `Neutral`. It also
returns a display label, a display colour, the per-category scores and three
parallel chart lists.

The pipeline, one module per stage:

- `EmotionTable` (`emotion_table.dfy`) holds the static table: keys in
  declaration order, keyword lists, glyphs, colours and lookup by name. It also
  proves that no word is a keyword of two categories.
- `Preprocessing` (`preprocessing.dfy`) models `preprocess_text`. The input is
  lower-cased, then spell-corrected, falling back to the lower-cased text when
  correction fails. The result is split into the maximal runs of word
  characters, which is what `re.findall(r'\b\w+\b', …)` returns.
- `Scoring` (`scoring.dfy`) models the nested scoring loop as the method
  `ScoreWords`. The method is proved to give every category the number of
  words, counted with multiplicity, that are in its keyword list.
- `Resolution` (`resolution.dfy`) models the winner scan as the method
  `ResolveWinner`. The loop is kept as written, including the
  `!= NEUTRAL_EMOTION` test and the final `max_score == 0` guard. It is proved
  equal to a closed form:
  - Neutral when every score is 0;
  - the category when it holds the unique highest score and that score is
    positive;
  - Mixed when two or more categories share a positive highest score.
- `Detector` (`detector.dfy`) models `detect_emotion_with_scores` end to end,
  covering the label, the colour and the chart lists. It also proves the
  pipeline properties: case-insensitivity, punctuation-only input, and two
  worked examples.

Two guards in the scan are redundant, and the model proves both with
assertions in `ResolveWinner`:

- When `score == max_score > 0`, some category has already set the verdict, so
  the test against Neutral always holds.
- After the loop, the verdict is already Neutral whenever the maximum is 0.

A tie at the maximum is Mixed for every pair of categories, including the first
two: the test at app.py:57 does not single out any position. `FirstTwoTieIsMixed`
proves this for the words `happy` and `sad`.

## Model

| member | source | states |
|---|---|---|
| `EmotionTable.Index` | app.py:11-18 | every category has a position in the declaration order, and the table holds that category at that position |
| `EmotionTable.AllDeclared` | app.py:11-18 | every category is one of the declared table keys |
| `EmotionTable.DeclaredDistinct` | app.py:11-18 | no category is declared twice: two positions hold the same key exactly when they are equal |
| `EmotionTable.EmotionNamed` | app.py:77 | looking up a key string gives the entry with that name; every declared name is found, and any other string finds nothing |
| `EmotionTable.KeywordsDisjoint` | app.py:12-17 | no word is a keyword of two different categories |
| `Preprocessing.Lower` | app.py:26 | lower-casing keeps the length, maps each character to its lower-case form, and leaves no upper-case letter |
| `Preprocessing.LowerIdempotent` | app.py:26 | lower-casing twice is the same as lower-casing once |
| `Preprocessing.LowerIgnoresCase` | app.py:26 | texts that differ only in letter case lower-case to the same text |
| `Preprocessing.LowerKeepsWordChars` | app.py:26 | lower-casing neither creates nor removes word characters |
| `Preprocessing.TokensAreWords` | app.py:35 | every token is non-empty and made only of word characters |
| `Preprocessing.TokensConcat` | app.py:35 | the tokens, in order and joined, equal the input with every non-word character removed |
| `Preprocessing.NoTokensIff` | app.py:35 | there are no tokens exactly when the text has no word character |
| `Preprocessing.TokenizeSplit` | app.py:35 | a non-word character separates: the tokens of `a + [c] + b` are the tokens of `a` followed by those of `b` |
| `Preprocessing.WordIsOneToken` | app.py:35 | a run of word characters is one token, never split, so runs are maximal |
| `Preprocessing.PhraseNeverToken` | app.py:35 | a string containing a non-word character is never a token |
| `Preprocessing.TokenizeUnwords` | app.py:35 | tokenising words joined by spaces gives back exactly those words |
| `Preprocessing.TokenizeIdempotent` | app.py:35 | re-tokenising the tokens, written out with spaces, gives the same tokens |
| `Preprocessing.Preprocess` | app.py:22-35 | always returns a sequence of words with no error; every word is non-empty word characters; if correction succeeds, the words are the tokens of the corrected text; if it fails, they are the tokens of the lower-cased input |
| `Preprocessing.PreprocessLowercase` | app.py:22-35 | a text with no upper-case letter, which correction leaves unchanged or fails on, is tokenised as it is |
| `Preprocessing.PreprocessLowered` | app.py:26 | preprocessing an input and preprocessing its lower-cased form give the same words |
| `Preprocessing.PreprocessIgnoresCase` | app.py:26-35 | inputs that differ only in letter case give the same words |
| `Preprocessing.PunctuationOnlyNoWords` | app.py:26-35 | an empty or punctuation-only input gives no words, whether correction fails or returns a text without word characters (the text unchanged included) |
| `Scoring.Matches` | app.py:44-47 | the number of matching words never exceeds the number of words |
| `Scoring.MatchesSnoc` | app.py:44-47 | counting one more word adds 1 exactly when that word is in the keyword list |
| `Scoring.ScoresOf` | app.py:41-47 | the expected score map has a key for every category, and each score is that category's number of matching words |
| `Scoring.ScoreWords` | app.py:41-47 | the nested loop, starting every score at 0, gives every category the number of words counted with multiplicity that are in its keyword list |
| `Scoring.MatchesAllAtMostWords` | app.py:44-47 | with pairwise disjoint keyword lists, the six match counts together never exceed the number of words |
| `Scoring.KeywordTableDisjoint` | app.py:12-17 | the classifier's keyword lists are pairwise disjoint |
| `Scoring.TotalAtMostWords` | app.py:44-47 | the sum of the six scores is at most the number of words |
| `Scoring.NoMatches` | app.py:46-47 | words that are not in a keyword list do not raise that list's count |
| `Scoring.NoKeywordsAllZero` | app.py:41-47 | when no word is a keyword, every score stays 0 |
| `Resolution.MaxOf` | app.py:49-56 | the tracked maximum starts at 0, is at least every score seen, and is 0 or one of them |
| `Resolution.Occurrences` | app.py:57-58 | a score value occurs zero times exactly when no position holds it |
| `Resolution.LastIndexOf` | app.py:54-56 | the position found holds the value, and no later position does |
| `Resolution.OccursOnce` | app.py:57-58 | a value occurs once exactly when no other position holds it |
| `Resolution.ClassifyStep` | app.py:53-58 | one more score: a strictly higher score wins outright; an equal positive score makes the verdict Mixed; otherwise the verdict is unchanged |
| `Resolution.ClassifyNeutral` | app.py:49-61 | the verdict is Neutral exactly when the maximum is 0, that is, when every score seen is 0 |
| `Resolution.HigherOverridesMixed` | app.py:54-56 | a later, strictly higher score replaces an earlier Mixed with that later category |
| `Resolution.ResolveWinner` | app.py:49-61 | the scan as written returns exactly the closed-form verdict of the score map |
| `Resolution.NeutralIffAllZero` | app.py:49-61 | the verdict is Neutral exactly when every score is 0 |
| `Resolution.WinnerIffUniqueMax` | app.py:53-61 | a category is the verdict exactly when its score is positive and every other score is strictly lower |
| `Resolution.MixedIffTiedMax` | app.py:53-61 | the verdict is Mixed exactly when two different categories share the highest score and it is positive |
| `Resolution.MixedIsTied` | app.py:57-58 | a Mixed verdict means two different categories share a positive highest score |
| `Resolution.TiedIsMixed` | app.py:57-58 | two different categories sharing a positive highest score give Mixed, whichever two they are |
| `Detector.FinalResultInjective` | app.py:64-72 | different verdicts get different labels, so the label determines the verdict |
| `Detector.DetectEmotionWithScores` | app.py:38-79 | returns the scores of the preprocessed words, the label and colour of their verdict, and three chart lists of length 6 in declaration order; chart position k is the k-th category's name, score and colour |
| `Detector.VerdictIgnoresCase` | app.py:26 | inputs that differ only in letter case get the same scores and the same verdict |
| `Detector.AllZeroIsNeutral` | app.py:60-69 | when every score is 0, the result is `Neutral 😐` in gray |
| `Detector.UniqueMaxIsWinner` | app.py:53-72 | a unique positive highest score gives `name + " " + glyph` in that category's colour |
| `Detector.TiedMaxIsMixed` | app.py:57-66 | a positive highest score shared by two categories gives `Mixed / Ambiguous 🤔` in gray |
| `Detector.PunctuationOnlyIsNeutral` | app.py:38-69 | an empty or punctuation-only input is Neutral, shown as `Neutral 😐` in gray, whether correction fails or returns a text without word characters (the text unchanged included) |
| `Detector.NoWordsIsNeutral` | app.py:41-61 | with no words, every score is 0 and the verdict is Neutral |
| `Detector.OhMyGodNeverMatches` | app.py:15 | the keyword `oh my god` contains spaces, so it is never one of the words and never scores |
| `Detector.FirstTwoTieIsMixed` | app.py:53-58 | the words `happy` and `sad` tie Happy and Sad at 1, and the verdict is Mixed |
| `Detector.HappySadCounts` | app.py:44-47 | the words `happy` and `sad` give Happy 1 and Sad 1 |
| `Detector.SingleKeywordIsHappy` | app.py:22-72 | `this is awesome`, whether correction keeps it or fails, is Happy and is shown with Happy's name, glyph and colour |
| `Detector.ThisIsAwesomeWords` | app.py:22-35 | `this is awesome` preprocesses to the words `this`, `is`, `awesome` |
| `Detector.ThisIsAwesomeTokens` | app.py:35 | `this is awesome` tokenises to `this`, `is`, `awesome` |
| `Detector.ThreeWords` | app.py:35 | three words separated by single spaces tokenise to those three words |
| `Detector.ThisIsAwesomeScores` | app.py:41-47 | the words `this`, `is`, `awesome` score Happy 1 and every other category 0 |
| `Detector.NotKeywords` | app.py:12-17 | `this` and `is` are in no keyword list |

## Left out

- The Flask routes `home`, `predict` and `clear_history` (app.py:83-128) are left out. They are HTTP and session glue. That includes the session history list, with its append, reverse and pop.
- `os.urandom`, `render_template` and `app.run` (app.py:8, app.py:92-96, app.py:116-123, app.py:130-131) are left out. They are runtime and I/O concerns.
- `TextBlob(text).correct()` (app.py:30) is a foreign, model-dependent library call. It becomes the parameter `correct`, an arbitrary function that returns a corrected text or a failure. The failure stands for any exception it raises.
- `str.lower()` and the regex classes `\w` and `\b` are modelled over ASCII: letters, digits and underscore. Unicode case mapping and Unicode word characters are not modelled.
- The emoji glyphs are opaque constant strings, each written as its code point. Their byte encoding is not modelled.
- Keys and verdict values: the source keys the table and the score dictionary by name strings, and keeps the verdict as a string. The model uses the datatype `Emotion` for the keys and `Detected` for the verdict, and its `Neutral` and `Mixed` constructors replace the strings `'Neutral'` and `'Mixed'`. Comparing against `'Neutral'` becomes a constructor test. The two agree because no category is named `Neutral` or `Mixed`.
- In-place dictionary update: the source updates the `emotion_scores` dictionary in place. The model keeps it in a local `map` variable that the loop reassigns. Nothing else refers to that dictionary, so no aliasing is lost.
- `Scoring.ScoreWords` receives the keyword table as a parameter, and `DetectEmotionWithScores` passes `Keywords`. The source reads the module-level dictionary directly.
