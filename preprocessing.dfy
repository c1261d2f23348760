/** Text preprocessing: lower-case the input, apply best-effort spelling
    correction with a fallback to the lower-cased text, then extract the
    maximal runs of word characters (the matches of the pattern \b\w+\b). */
module Preprocessing {

  /** What the spelling corrector gives back: a corrected text, or a failure
      (the exception the source catches). */
  datatype Correction = Corrected(text: string) | CorrectionFailed

  /** The spelling corrector, an opaque and possibly failing function. */
  type Corrector = string -> Correction

  /** ASCII lower-casing of one character. */
  function LowerChar(c: char): char
  {
    if 'A' <= c <= 'Z' then (c as int + 32) as char else c
  }

  predicate IsUpper(c: char)
  {
    'A' <= c <= 'Z'
  }

  /** Lower-casing of a whole string, character by character. */
  function Lower(s: string): (r: string)
    ensures |r| == |s|
    ensures forall i :: 0 <= i < |s| ==> r[i] == LowerChar(s[i])
    ensures forall i :: 0 <= i < |s| ==> !IsUpper(r[i])
  {
    if s == [] then [] else [LowerChar(s[0])] + Lower(s[1..])
  }

  /** Lower-casing is idempotent. */
  lemma {:induction false} LowerIdempotent(s: string)
    ensures Lower(Lower(s)) == Lower(s)
  {
    if s != [] {
      LowerIdempotent(s[1..]);
      assert Lower(s)[1..] == Lower(s[1..]);
    }
  }

  /** Texts that differ only in letter case lower-case to the same text. */
  lemma LowerIgnoresCase(s: string, t: string)
    requires |s| == |t|
    requires forall i :: 0 <= i < |s| ==> LowerChar(s[i]) == LowerChar(t[i])
    ensures Lower(s) == Lower(t)
  {
  }

  /** A word character of the pattern \w, over ASCII: letters, digits, underscore. */
  predicate IsWordChar(c: char)
  {
    'a' <= c <= 'z' || 'A' <= c <= 'Z' || '0' <= c <= '9' || c == '_'
  }

  /** Lower-casing neither creates nor removes word characters. */
  lemma LowerKeepsWordChars(c: char)
    ensures IsWordChar(LowerChar(c)) == IsWordChar(c)
  {
  }

  predicate IsWord(t: string)
  {
    |t| > 0 && forall i :: 0 <= i < |t| ==> IsWordChar(t[i])
  }

  predicate AllWordChars(t: string)
  {
    forall i :: 0 <= i < |t| ==> IsWordChar(t[i])
  }

  /** The characters of s that are word characters, in order. */
  function WordChars(s: string): string
  {
    if s == [] then []
    else if IsWordChar(s[0]) then [s[0]] + WordChars(s[1..])
    else WordChars(s[1..])
  }

  /** Concatenation of a sequence of strings. */
  function Concat(ts: seq<string>): string
  {
    if ts == [] then [] else ts[0] + Concat(ts[1..])
  }

  /** The tokens of s, in order: the maximal runs of word characters. */
  function Tokenize(s: string): seq<string>
  {
    Scan(s, [])
  }

  /** Scanner state: `run` holds the word characters read since the last
      separator; a separator or the end of the text closes the run. */
  function Scan(s: string, run: string): seq<string>
    decreases |s|
  {
    if s == [] then Flush(run)
    else if IsWordChar(s[0]) then Scan(s[1..], run + [s[0]])
    else Flush(run) + Scan(s[1..], [])
  }

  function Flush(run: string): seq<string>
  {
    if run == [] then [] else [run]
  }

  lemma {:induction false} ScanWords(s: string, run: string)
    requires AllWordChars(run)
    ensures forall k :: 0 <= k < |Scan(s, run)| ==> IsWord(Scan(s, run)[k])
  {
    if s != [] {
      if IsWordChar(s[0]) {
        ScanWords(s[1..], run + [s[0]]);
      } else {
        ScanWords(s[1..], []);
      }
    }
  }

  /** Every token is non-empty and made of word characters only. */
  lemma TokensAreWords(s: string)
    ensures forall k :: 0 <= k < |Tokenize(s)| ==> IsWord(Tokenize(s)[k])
  {
    ScanWords(s, []);
  }

  lemma {:induction false} ConcatAppend(a: seq<string>, b: seq<string>)
    ensures Concat(a + b) == Concat(a) + Concat(b)
  {
    if a == [] {
      assert a + b == b;
    } else {
      ConcatAppend(a[1..], b);
      assert (a + b)[1..] == a[1..] + b;
      calc {
        Concat(a + b);
        a[0] + Concat(a[1..] + b);
        a[0] + (Concat(a[1..]) + Concat(b));
      }
    }
  }

  lemma {:induction false} ScanConcat(s: string, run: string)
    ensures Concat(Scan(s, run)) == run + WordChars(s)
  {
    if s == [] {
    } else if IsWordChar(s[0]) {
      ScanConcat(s[1..], run + [s[0]]);
    } else {
      ScanConcat(s[1..], []);
      ConcatAppend(Flush(run), Scan(s[1..], []));
    }
  }

  /** Tokens appear in input order: joined together they give back the input
      with every non-word character removed. */
  lemma TokensConcat(s: string)
    ensures Concat(Tokenize(s)) == WordChars(s)
  {
    ScanConcat(s, []);
  }

  /** A text yields no token exactly when it holds no word character. */
  lemma NoTokensIff(s: string)
    ensures Tokenize(s) == [] <==> forall i :: 0 <= i < |s| ==> !IsWordChar(s[i])
  {
    TokensAreWords(s);
    TokensConcat(s);
    if Tokenize(s) == [] {
      NoWordChars(s);
    } else {
      var t := Tokenize(s);
      assert Concat(t) == t[0] + Concat(t[1..]);
      assert IsWord(t[0]);
      WordCharsOnlyFrom(s, 0);
    }
  }

  lemma {:induction false} NoWordChars(s: string)
    requires WordChars(s) == []
    ensures forall i :: 0 <= i < |s| ==> !IsWordChar(s[i])
  {
    if s != [] {
      NoWordChars(s[1..]);
      assert forall i :: 1 <= i < |s| ==> s[i] == s[1..][i - 1];
    }
  }

  lemma {:induction false} WordCharsOnlyFrom(s: string, k: nat)
    requires k < |WordChars(s)|
    ensures exists i :: 0 <= i < |s| && IsWordChar(s[i])
  {
    if !IsWordChar(s[0]) {
      WordCharsOnlyFrom(s[1..], k);
      var i :| 0 <= i < |s[1..]| && IsWordChar(s[1..][i]);
      assert IsWordChar(s[i + 1]);
    }
  }

  /** A keyword containing a non-word character, such as a phrase with spaces,
      is never a token. */
  lemma PhraseNeverToken(s: string, phrase: string, j: nat)
    requires j < |phrase| && !IsWordChar(phrase[j])
    ensures phrase !in Tokenize(s)
  {
    TokensAreWords(s);
  }

  lemma {:induction false} ScanSplit(a: string, c: char, b: string, run: string)
    requires !IsWordChar(c)
    ensures Scan(a + [c] + b, run) == Scan(a, run) + Scan(b, [])
    decreases |a|
  {
    if a == [] {
      assert a + [c] + b == [c] + b;
      assert ([c] + b)[1..] == b;
    } else {
      assert (a + [c] + b)[0] == a[0];
      assert (a + [c] + b)[1..] == a[1..] + [c] + b;
      if IsWordChar(a[0]) {
        ScanSplit(a[1..], c, b, run + [a[0]]);
      } else {
        ScanSplit(a[1..], c, b, []);
      }
    }
  }

  /** A non-word character separates: the tokens on each side of it are
      found independently, so no token spans a separator. */
  lemma TokenizeSplit(a: string, c: char, b: string)
    requires !IsWordChar(c)
    ensures Tokenize(a + [c] + b) == Tokenize(a) + Tokenize(b)
  {
    ScanSplit(a, c, b, []);
  }

  /** A run of word characters is one token, never split: runs are maximal. */
  lemma WordIsOneToken(w: string)
    requires IsWord(w)
    ensures Tokenize(w) == [w]
  {
    ScanThroughWord(w, [], []);
    assert w + [] == w && [] + w == w;
  }

  /** Words joined with a trailing space after each, the inverse of Tokenize. */
  function Unwords(ts: seq<string>): string
  {
    if ts == [] then [] else ts[0] + " " + Unwords(ts[1..])
  }

  lemma {:induction false} ScanThroughWord(t: string, rest: string, run: string)
    requires AllWordChars(t)
    ensures Scan(t + rest, run) == Scan(rest, run + t)
    decreases |t|
  {
    if t != [] {
      assert (t + rest)[0] == t[0];
      assert (t + rest)[1..] == t[1..] + rest;
      ScanThroughWord(t[1..], rest, run + [t[0]]);
      assert run + [t[0]] + t[1..] == run + t;
    } else {
      assert t + rest == rest && run + t == run;
    }
  }

  /** Tokenising words separated by spaces gives back exactly those words. */
  lemma {:induction false} TokenizeUnwords(ts: seq<string>)
    requires forall k :: 0 <= k < |ts| ==> IsWord(ts[k])
    ensures Tokenize(Unwords(ts)) == ts
  {
    if ts != [] {
      var rest := Unwords(ts[1..]);
      assert Unwords(ts) == ts[0] + (" " + rest);
      ScanThroughWord(ts[0], " " + rest, []);
      assert [] + ts[0] == ts[0];
      assert (" " + rest)[1..] == rest;
      TokenizeUnwords(ts[1..]);
    }
  }

  /** Tokenisation is idempotent: re-tokenising the tokens written out with
      spaces gives the same tokens. */
  lemma TokenizeIdempotent(s: string)
    ensures Tokenize(Unwords(Tokenize(s))) == Tokenize(s)
  {
    TokensAreWords(s);
    TokenizeUnwords(Tokenize(s));
  }

  /** The text that is tokenised: the corrected lower-cased text, or the
      lower-cased text itself when correction fails. */
  function CorrectedText(text: string, correct: Corrector): (r: string)
    ensures correct(Lower(text)).CorrectionFailed? ==> r == Lower(text)
    ensures correct(Lower(text)).Corrected? ==> r == correct(Lower(text)).text
  {
    var lowered := Lower(text);
    match correct(lowered)
    case Corrected(t) => t
    case CorrectionFailed => lowered
  }

  /** preprocess_text: lower-case, correct, tokenise. Never fails. */
  function Preprocess(text: string, correct: Corrector): (words: seq<string>)
    ensures forall k :: 0 <= k < |words| ==> IsWord(words[k])
    ensures correct(Lower(text)).CorrectionFailed? ==> words == Tokenize(Lower(text))
    ensures correct(Lower(text)).Corrected? ==> words == Tokenize(correct(Lower(text)).text)
  {
    TokensAreWords(CorrectedText(text, correct));
    Tokenize(CorrectedText(text, correct))
  }

  /** A text with no upper-case letter that the corrector leaves unchanged, or
      fails on, is tokenised as it is. */
  lemma PreprocessLowercase(text: string, correct: Corrector)
    requires forall i :: 0 <= i < |text| ==> !IsUpper(text[i])
    requires correct(text) in {CorrectionFailed, Corrected(text)}
    ensures Preprocess(text, correct) == Tokenize(text)
  {
    assert Lower(text) == text;
  }

  /** Preprocessing sees the input only through its lower-cased form. */
  lemma PreprocessLowered(text: string, correct: Corrector)
    ensures Preprocess(Lower(text), correct) == Preprocess(text, correct)
  {
    LowerIdempotent(text);
  }

  /** Inputs that differ only in letter case give the same words. */
  lemma PreprocessIgnoresCase(s: string, t: string, correct: Corrector)
    requires |s| == |t|
    requires forall i :: 0 <= i < |s| ==> LowerChar(s[i]) == LowerChar(t[i])
    ensures Preprocess(s, correct) == Preprocess(t, correct)
  {
    LowerIgnoresCase(s, t);
  }

  /** A punctuation-only (or empty) input yields no words, provided correction
      fails or returns a text without word characters (such as the text
      unchanged). */
  lemma PunctuationOnlyNoWords(text: string, correct: Corrector)
    requires forall i :: 0 <= i < |text| ==> !IsWordChar(text[i])
    requires correct(Lower(text)).Corrected? ==>
               forall i :: 0 <= i < |correct(Lower(text)).text| ==> !IsWordChar(correct(Lower(text)).text[i])
    ensures Preprocess(text, correct) == []
  {
    forall i | 0 <= i < |text| ensures !IsWordChar(Lower(text)[i]) {
      LowerKeepsWordChars(text[i]);
    }
    NoTokensIff(CorrectedText(text, correct));
  }
}
