/** Python's `str.split`, `" ".join` and the whitespace collapsing made of them. */
module Whitespace {

  /** The characters that `str.isspace` and `str.split` treat as whitespace. */
  predicate IsSpace(c: char) {
    var code := c as int;
    || 0x09 <= code <= 0x0D || 0x1C <= code <= 0x20 || code == 0x85 || code == 0xA0 || code == 0x1680
    || 0x2000 <= code <= 0x200A || code == 0x2028 || code == 0x2029
    || code == 0x202F || code == 0x205F || code == 0x3000
  }

  predicate IsWord(word: string) {
    word != "" && forall c | c in word :: !IsSpace(c)
  }

  predicate AreWords(words: seq<string>) {
    forall word | word in words :: IsWord(word)
  }

  /** The length of the word that the text starts with. */
  function WordLength(text: string): (n: nat)
    ensures n <= |text|
    ensures forall c | c in text[..n] :: !IsSpace(c)
    ensures n < |text| ==> IsSpace(text[n])
  {
    if text == "" || IsSpace(text[0]) then 0
    else
      var n := 1 + WordLength(text[1..]);
      assert text[..n] == [text[0]] + text[1..][..n - 1];
      n
  }

  /** `text.split()`. */
  function Split(text: string): (words: seq<string>)
    ensures AreWords(words)
    decreases |text|
  {
    if text == "" then []
    else if IsSpace(text[0]) then Split(text[1..])
    else
      var n := WordLength(text);
      [text[..n]] + Split(text[n..])
  }

  /** `" ".join(parts)`. */
  function Join(parts: seq<string>): string {
    if parts == [] then "" else if |parts| == 1 then parts[0] else parts[0] + " " + Join(parts[1..])
  }

  function CollapseWhitespace(text: string): string { Join(Split(text)) }

  predicate IsCollapsed(text: string) { CollapseWhitespace(text) == text }

  // ---------------------------------------------------------------- splitting what was joined

  lemma {:induction false} WordEndsAtSpace(word: string, rest: string)
    requires IsWord(word) && (rest == "" || IsSpace(rest[0]))
    ensures WordLength(word + rest) == |word|
    decreases |word|
  {
    assert (word + rest)[1..] == word[1..] + rest;
    assert word[0] in word;
    if |word| == 1 {
      assert word[1..] + rest == rest;
    } else {
      assert forall c | c in word[1..] :: c in word;
      WordEndsAtSpace(word[1..], rest);
    }
  }

  lemma SplitWord(word: string, rest: string)
    requires IsWord(word) && (rest == "" || IsSpace(rest[0]))
    ensures Split(word + rest) == [word] + Split(rest)
  {
    WordEndsAtSpace(word, rest);
    assert word[0] in word;
    assert (word + rest)[..|word|] == word && (word + rest)[|word|..] == rest;
  }

  /** Splitting a joined list of words gives the words back. */
  lemma {:induction false} SplitJoin(words: seq<string>)
    requires AreWords(words)
    ensures Split(Join(words)) == words
  {
    if words == [] {
    } else if |words| == 1 {
      SplitWord(words[0], "");
      assert words[0] + "" == words[0];
    } else {
      var rest := " " + Join(words[1..]);
      assert Join(words) == words[0] + rest;
      SplitWord(words[0], rest);
      assert rest[1..] == Join(words[1..]);
      SplitJoin(words[1..]);
    }
  }

  lemma CollapseIsIdempotent(text: string)
    ensures IsCollapsed(CollapseWhitespace(text))
  {
    SplitJoin(Split(text));
  }

  /** Whitespace is single space characters between other characters. */
  predicate IsSingleSpaced(text: string) {
    forall i | 0 <= i < |text| && IsSpace(text[i]) :: text[i] == ' ' && 0 < i < |text| - 1 && !IsSpace(text[i + 1])
  }

  lemma {:induction false} JoinIsSingleSpaced(words: seq<string>)
    requires AreWords(words)
    ensures IsSingleSpaced(Join(words)) && (words != [] ==> Join(words) != "" && !IsSpace(Join(words)[0]))
  {
    if words != [] {
      assert IsWord(words[0]) && words[0][0] in words[0];
      if |words| > 1 {
        var word, rest := words[0], Join(words[1..]);
        JoinIsSingleSpaced(words[1..]);
        var text := word + " " + rest;
        assert forall i | 0 <= i < |word| :: word[i] in word;
        forall i | 0 <= i < |text| && IsSpace(text[i])
          ensures text[i] == ' ' && 0 < i < |text| - 1 && !IsSpace(text[i + 1])
        {
          if i > |word| {
            assert text[i] == rest[i - |word| - 1];
          }
        }
      } else {
        assert forall i | 0 <= i < |words[0]| :: words[0][i] in words[0];
      }
    }
  }

  lemma {:induction false} SingleSpacedJoins(text: string)
    requires IsSingleSpaced(text)
    ensures Join(Split(text)) == text && (text != "" ==> Split(text) != [])
    decreases |text|
  {
    if text != "" {
      var n := WordLength(text);
      if n < |text| {
        var rest := text[n + 1..];
        forall i | 0 <= i < |rest| && IsSpace(rest[i])
          ensures rest[i] == ' ' && 0 < i < |rest| - 1 && !IsSpace(rest[i + 1])
        {
          assert rest[i] == text[n + 1 + i];
        }
        SingleSpacedJoins(rest);
        assert text[n..][1..] == rest;
        assert text == text[..n] + " " + rest;
      } else {
        assert text[..n] == text && text[n..] == "";
      }
    }
  }

  /** A text is a fixed point of collapsing exactly if its whitespace is single spaces inside it. */
  lemma CollapsedIff(text: string)
    ensures IsCollapsed(text) <==> IsSingleSpaced(text)
  {
    if IsSingleSpaced(text) {
      SingleSpacedJoins(text);
    }
    JoinIsSingleSpaced(Split(text));
  }

  predicate IsGap(text: string) {
    forall c | c in text :: IsSpace(c)
  }

  lemma {:induction false} SplitSkipsGap(gap: string, rest: string)
    requires IsGap(gap)
    ensures Split(gap + rest) == Split(rest)
  {
    if gap == "" {
      assert gap + rest == rest;
    } else {
      assert gap[0] in gap && forall c | c in gap[1..] :: c in gap;
      assert (gap + rest)[1..] == gap[1..] + rest;
      SplitSkipsGap(gap[1..], rest);
    }
  }

  /** Whitespace separates the words in front of it from those behind it. */
  lemma {:induction false} SplitAtGap(front: string, gap: string, rest: string)
    requires IsGap(gap) && (gap != "" || rest == "")
    ensures Split(front + gap + rest) == Split(front) + Split(rest)
    decreases |front|
  {
    var text := front + gap + rest;
    SplitSkipsGap(gap, rest);
    assert gap != "" ==> gap[0] in gap;
    if front == "" {
      assert text == gap + rest;
    } else if IsSpace(front[0]) {
      assert text[1..] == front[1..] + gap + rest;
      SplitAtGap(front[1..], gap, rest);
    } else {
      var n := WordLength(front);
      var word, tail := front[..n], front[n..] + gap + rest;
      assert front[0] == word[0] && IsWord(word);
      assert text == word + tail;
      assert tail == "" || IsSpace(tail[0]);
      SplitWord(word, tail);
      SplitAtGap(front[n..], gap, rest);
    }
  }

  /**
   Collapsing sees of a gap between two texts only that there is one, and nothing of one at either end.
   With CollapsedIff this leaves one result for every text.
   */
  lemma GapsCollapse(front: string, gap: string, other: string, rest: string)
    requires IsGap(gap) && IsGap(other) && gap != "" && other != ""
    ensures CollapseWhitespace(front + gap + rest) == CollapseWhitespace(front + other + rest)
    ensures CollapseWhitespace(gap + rest) == CollapseWhitespace(rest)
    ensures CollapseWhitespace(front + gap) == CollapseWhitespace(front)
  {
    SplitAtGap(front, gap, rest);
    SplitAtGap(front, other, rest);
    SplitSkipsGap(gap, rest);
    SplitAtGap(front, gap, "");
    assert front + gap + "" == front + gap;
    assert Split(front) + [] == Split(front);
  }

  /** A text collapses to nothing exactly if it is blank. */
  lemma BlankIff(text: string)
    ensures CollapseWhitespace(text) == "" <==> IsGap(text)
  {
    JoinIsSingleSpaced(Split(text));
    if IsGap(text) {
      SplitSkipsGap(text, "");
      assert text + "" == text;
    } else {
      SplitOfVisible(text);
    }
  }

  lemma {:induction false} SplitOfVisible(text: string)
    requires !IsGap(text)
    ensures Split(text) != []
    decreases |text|
  {
    if IsSpace(text[0]) {
      assert text == [text[0]] + text[1..];
      SplitOfVisible(text[1..]);
    }
  }

  // ---------------------------------------------------------------- joining collapsed texts

  function Flatten(groups: seq<seq<string>>): seq<string> {
    if groups == [] then [] else groups[0] + Flatten(groups[1..])
  }

  lemma {:induction false} JoinAppends(a: seq<string>, b: seq<string>)
    requires a != [] && b != []
    ensures Join(a + b) == Join(a) + " " + Join(b)
  {
    if |a| == 1 {
      assert (a + b)[1..] == b;
    } else {
      assert (a + b)[1..] == a[1..] + b;
      JoinAppends(a[1..], b);
      assert Join(a + b) == a[0] + " " + (Join(a[1..]) + " " + Join(b));
    }
  }

  function SplitAll(texts: seq<string>): (groups: seq<seq<string>>)
    ensures |groups| == |texts|
    ensures forall i | 0 <= i < |texts| :: groups[i] == Split(texts[i])
  {
    if texts == [] then [] else [Split(texts[0])] + SplitAll(texts[1..])
  }

  /** Joining nonempty collapsed texts is joining all of their words. */
  lemma {:induction false} JoinOfCollapsed(texts: seq<string>)
    requires forall text | text in texts :: text != "" && IsCollapsed(text)
    ensures Join(texts) == Join(Flatten(SplitAll(texts)))
    ensures AreWords(Flatten(SplitAll(texts)))
    ensures texts != [] ==> Flatten(SplitAll(texts)) != []
  {
    if texts != [] {
      var words, rest := Split(texts[0]), Flatten(SplitAll(texts[1..]));
      assert texts[0] in texts && words != [];
      assert forall text | text in texts[1..] :: text in texts;
      JoinOfCollapsed(texts[1..]);
      assert SplitAll(texts)[1..] == SplitAll(texts[1..]);
      if |texts| == 1 {
        assert words + rest == words;
      } else {
        JoinAppends(words, rest);
      }
    }
  }

  /** The joined text of nonempty collapsed texts is collapsed itself. */
  lemma JoinIsCollapsed(texts: seq<string>)
    requires forall text | text in texts :: text != "" && IsCollapsed(text)
    ensures IsCollapsed(Join(texts))
    ensures Join(texts) == "" <==> texts == []
  {
    JoinOfCollapsed(texts);
    SplitJoin(Flatten(SplitAll(texts)));
    if texts != [] {
      assert texts[0] in texts;
    }
  }
}
