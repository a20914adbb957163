/**
 * The word counting of `Loader.analyzeWebsite` (Loader.java:162-171) and its stop-word list
 * (Loader.java:178-208): every paragraph is lower-cased and split at runs of white space, and
 * each word that is not a stop word and holds only letters is counted. The fetch of the page and
 * the selection of its paragraphs are not modelled: the paragraph texts are the input.
 */
module WordCount {
  import opened JavaSplit

  /** The articles and prepositions that are never counted. */
  const StopWords: set<string> := {
    "a", "the", "in", "at", "on", "of", "and", "to", "by", "have", "it", "for", "as", "or",
    "there", "what", "can", "use", "because", "most", "more", "be", "with", "may", "these", "is"
  }

  /** A character of the regular-expression class `\s`: space, tab, newline, vertical tab, form feed, carriage return. */
  predicate IsSpace(c: char)
  {
    c == ' ' || c == '\t' || c == '\n' || c == '\U{000B}' || c == '\U{000C}' || c == '\r'
  }

  predicate IsUpper(c: char)
  {
    'A' <= c <= 'Z'
  }

  /** `toLowerCase`, on ASCII letters. */
  function Lower(s: string): (r: string)
    ensures |r| == |s|
    ensures forall k :: 0 <= k < |r| ==> !IsUpper(r[k])
  {
    if s == [] then []
    else [if IsUpper(s[0]) then (s[0] as int + 32) as char else s[0]] + Lower(s[1..])
  }

  /** The end of the run of white space that starts at `i`. */
  function RunEnd(s: string, i: nat): (j: nat)
    requires i < |s| && IsSpace(s[i])
    ensures i < j <= |s| && (j == |s| || !IsSpace(s[j]))
    decreases |s| - i
  {
    if i + 1 < |s| && IsSpace(s[i + 1]) then RunEnd(s, i + 1) else i + 1
  }

  /** The pieces of `s[start..]` cut at every maximal run of white space, scanning from `i`. */
  function Runs(s: string, start: nat, i: nat): seq<string>
    requires start <= i <= |s|
    decreases |s| - i
  {
    if i == |s| then [s[start..]]
    else if IsSpace(s[i]) then [s[start..i]] + Runs(s, RunEnd(s, i), RunEnd(s, i))
    else Runs(s, start, i + 1)
  }

  /** `split("\\s+")`. */
  function SplitWords(s: string): seq<string>
  {
    SplitResult(Runs(s, 0, 0))
  }

  /** Every character of every piece is a character of `s` that is not white space. */
  lemma {:induction false} RunsFromText(s: string, start: nat, i: nat)
    requires start <= i <= |s|
    requires forall k :: start <= k < i ==> !IsSpace(s[k])
    ensures forall t, k :: t in Runs(s, start, i) && 0 <= k < |t| ==> !IsSpace(t[k]) && t[k] in s
    decreases |s| - i
  {
    if i == |s| {
      assert forall k :: 0 <= k < |s[start..]| ==> s[start..][k] == s[start + k];
    } else if IsSpace(s[i]) {
      var j := RunEnd(s, i);
      assert forall k :: 0 <= k < |s[start..i]| ==> s[start..i][k] == s[start + k];
      RunsFromText(s, j, j);
    } else {
      RunsFromText(s, start, i + 1);
    }
  }

  lemma SplitWordsFromText(s: string)
    ensures forall t, k :: t in SplitWords(s) && 0 <= k < |t| ==> !IsSpace(t[k]) && t[k] in s
  {
    RunsFromText(s, 0, 0);
    var raw := Runs(s, 0, 0);
    assert forall t :: t in SplitResult(raw) ==> t in raw;
  }

  predicate IsLetters(w: string)
  {
    forall k :: 0 <= k < |w| ==> 'a' <= w[k] <= 'z' || 'A' <= w[k] <= 'Z'
  }

  /** `!stopWords.contains(word) && word.matches("^[a-zA-Z]*$")`: the empty word is counted too. */
  predicate Counted(w: string)
  {
    w !in StopWords && IsLetters(w)
  }

  /** The words of the paragraphs, in the order the loops visit them. */
  function AllWords(paragraphs: seq<string>): seq<string>
  {
    if paragraphs == [] then []
    else AllWords(paragraphs[..|paragraphs| - 1]) + SplitWords(Lower(paragraphs[|paragraphs| - 1]))
  }

  /** Every word, so also every counted word, comes from lower-cased text and so has no capital
   * letter and no white space. */
  lemma {:induction false} AllWordsLowerCase(paragraphs: seq<string>)
    ensures forall t, k :: t in AllWords(paragraphs) && 0 <= k < |t| ==> !IsUpper(t[k]) && !IsSpace(t[k])
  {
    if paragraphs != [] {
      AllWordsLowerCase(paragraphs[..|paragraphs| - 1]);
      SplitWordsFromText(Lower(paragraphs[|paragraphs| - 1]));
    }
  }

  /** The table counts exactly the counted words of `seen`, each as often as it occurs there. */
  ghost predicate Tally(freq: map<string, int>, seen: seq<string>)
  {
    (forall w :: w in freq ==> Counted(w) && freq[w] == multiset(seen)[w] > 0) &&
    (forall w :: Counted(w) && multiset(seen)[w] > 0 ==> w in freq)
  }

  lemma TallyStep(freq: map<string, int>, seen: seq<string>, x: string)
    requires Tally(freq, seen)
    ensures Counted(x) ==> Tally(freq[x := (if x in freq then freq[x] else 0) + 1], seen + [x])
    ensures !Counted(x) ==> Tally(freq, seen + [x])
  {
    assert multiset(seen + [x]) == multiset(seen) + multiset{x};
  }

  /** Every counted word of lower-cased text is made of lower-case letters only. */
  lemma TallyLowerCase(freq: map<string, int>, paragraphs: seq<string>)
    requires Tally(freq, AllWords(paragraphs))
    ensures forall w, k :: w in freq && 0 <= k < |w| ==> 'a' <= w[k] <= 'z'
  {
    AllWordsLowerCase(paragraphs);
    forall w, k | w in freq && 0 <= k < |w|
      ensures 'a' <= w[k] <= 'z'
    {
      assert multiset(AllWords(paragraphs))[w] > 0;
      assert w in AllWords(paragraphs);
      assert IsLetters(w) && !IsUpper(w[k]);
    }
  }

  /** The inner loop of analyzeWebsite: count the words of one paragraph into the table. */
  method CountInto(wordFrequency: map<string, int>, words: seq<string>, ghost seen: seq<string>)
    returns (counted: map<string, int>)
    requires Tally(wordFrequency, seen)
    ensures Tally(counted, seen + words)
  {
    counted := wordFrequency;
    var j := 0;
    while j < |words|
      invariant 0 <= j <= |words|
      invariant Tally(counted, seen + words[..j])
    {
      var word := words[j];
      TallyStep(counted, seen + words[..j], word);
      assert seen + words[..j + 1] == seen + words[..j] + [word];
      if !(word in StopWords) && IsLetters(word) {
        counted := counted[word := (if word in counted then counted[word] else 0) + 1];
      }
      j := j + 1;
    }
    assert words[..j] == words;
  }

  /**
   * The counting loops of analyzeWebsite over the paragraph texts: each table entry is a counted
   * word, its count is the number of its occurrences among the words, and every counted word
   * that occurs has an entry.
   */
  method CountWords(paragraphs: seq<string>) returns (wordFrequency: map<string, int>)
    ensures forall w :: w in wordFrequency ==> Counted(w) && wordFrequency[w] == multiset(AllWords(paragraphs))[w] > 0
    ensures forall w :: Counted(w) && multiset(AllWords(paragraphs))[w] > 0 ==> w in wordFrequency
    ensures forall w, k :: w in wordFrequency && 0 <= k < |w| ==> 'a' <= w[k] <= 'z'
  {
    wordFrequency := map[];
    var i := 0;
    while i < |paragraphs|
      invariant 0 <= i <= |paragraphs|
      invariant Tally(wordFrequency, AllWords(paragraphs[..i]))
    {
      var words := SplitWords(Lower(paragraphs[i]));
      assert paragraphs[..i + 1][..i] == paragraphs[..i];
      wordFrequency := CountInto(wordFrequency, words, AllWords(paragraphs[..i]));
      i := i + 1;
    }
    assert paragraphs[..i] == paragraphs;
    TallyLowerCase(wordFrequency, paragraphs);
  }
}
