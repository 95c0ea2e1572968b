// source/console.c, lines 203-267: what wrapping makes of words, spaces and line breaks.

/** The one wrapping of a text, for words and the characters between them written out. */
module WrapLaws {
  import opened WordWrap

  /** A word: at least one character, none of them a space, a tab or part of a line break. */
  predicate IsWord(s: string) {
    s != [] && forall i :: 0 <= i < |s| ==> s[i] != ' ' && s[i] != '\t' && s[i] != '\n' && s[i] != '\r'
  }

  lemma WordHasNoBlank(text: string, from: nat, word: string)
    requires IsWord(word) && from + |word| <= |text| && text[from..from + |word|] == word
    ensures forall k :: from <= k < from + |word| ==> !IsBlank(text[k])
  {
    forall k | from <= k < from + |word| ensures !IsBlank(text[k]) {
      assert text[k] == word[k - from];
    }
  }

  lemma OneSpan(text: string, width: nat, l: Span)
    requires GoodLine(text, width, l) && StartsAt(text, 0, l.start) && AfterBreak(text, l.end) == |text|
    ensures IsWrapping(text, width, [l])
  {
    var spans := [l];
    assert ResumesAt(text, spans, 0) == 0 && ResumesAt(text, spans, 1) == |text|;
    assert SpacesOnly(text, |text|, |text|);
  }

  lemma TwoSpans(text: string, width: nat, l: Span, m: Span)
    requires GoodLine(text, width, l) && GoodLine(text, width, m)
    requires StartsAt(text, 0, l.start) && StartsAt(text, AfterBreak(text, l.end), m.start)
    requires AfterBreak(text, m.end) == |text|
    ensures IsWrapping(text, width, [l, m])
  {
    var spans := [l, m];
    assert ResumesAt(text, spans, 0) == 0 && ResumesAt(text, spans, 1) == AfterBreak(text, l.end);
    assert ResumesAt(text, spans, 2) == |text| && SpacesOnly(text, |text|, |text|);
  }

  /** A word that fits is one line, behind spaces as well. */
  lemma WordThatFits(indent: string, word: string, width: nat, spans: seq<Span>)
    requires IsWord(word) && |word| <= width && forall c :: c in indent ==> c == ' ' || c == '\t'
    requires IsWrapping(indent + word, width, spans)
    ensures spans == [Span(|indent|, |indent| + |word|)]
  {
    var text, l := indent + word, Span(|indent|, |indent| + |word|);
    WordBehindSpaces(text, indent, word);
    OneSpan(text, width, l);
    WrappingIsUnique(text, width, spans, [l]);
  }

  lemma WordBehindSpaces(text: string, indent: string, word: string)
    requires text == indent + word && IsWord(word) && forall c :: c in indent ==> c == ' ' || c == '\t'
    ensures StartsAt(text, 0, |indent|) && forall k :: |indent| <= k < |text| ==> !IsNewline(text[k])
  {
    WordHasNoBlank(text, |indent|, word);
    forall k | 0 <= k < |indent| ensures IsSpace(text[k]) {
      assert indent[k] in indent;
    }
  }

  /** A word of up to two widths is cut behind the first. */
  lemma LongWord(word: string, width: nat, spans: seq<Span>)
    requires IsWord(word) && 1 <= width < |word| <= 2 * width && IsWrapping(word, width, spans)
    ensures spans == [Span(0, width), Span(width, |word|)]
  {
    assert word[0..|word|] == word;
    WordHasNoBlank(word, 0, word);
    TwoSpans(word, width, Span(0, width), Span(width, |word|));
    WrappingIsUnique(word, width, spans, [Span(0, width), Span(width, |word|)]);
  }

  /** The characters of two words with something between them. */
  lemma Between(a: string, gap: string, b: string) returns (text: string)
    requires IsWord(a) && IsWord(b)
    ensures text == a + gap + b && |text| == |a| + |gap| + |b|
    ensures text[|a|..|a| + |gap|] == gap
    ensures forall k :: 0 <= k < |text| && !(|a| <= k < |a| + |gap|) ==> !IsBlank(text[k])
  {
    text := a + gap + b;
    WordHasNoBlank(text, 0, a);
    WordHasNoBlank(text, |a| + |gap|, b);
  }

  /** Two words with a space or a tab between them share a line exactly if they fit on it together. */
  lemma TwoWords(a: string, space: char, b: string, width: nat, spans: seq<Span>)
    requires IsWord(a) && IsWord(b) && |a| <= width && |b| <= width && (space == ' ' || space == '\t')
    requires IsWrapping(a + [space] + b, width, spans)
    ensures var n := |a| + 1 + |b|;
            spans == if n <= width then [Span(0, n)] else [Span(0, |a|), Span(|a| + 1, n)]
  {
    var text := Between(a, [space], b);
    assert text[|a|] == text[|a|..|a| + 1][0] == space;
    SpaceInText(text, |a|, width, spans);
  }

  lemma SpaceInText(text: string, at: nat, width: nat, spans: seq<Span>)
    requires 0 < at <= width && at + 1 < |text| <= at + 1 + width && (text[at] == ' ' || text[at] == '\t')
    requires forall k :: 0 <= k < |text| && k != at ==> !IsBlank(text[k])
    requires IsWrapping(text, width, spans)
    ensures spans == if |text| <= width then [Span(0, |text|)] else [Span(0, at), Span(at + 1, |text|)]
  {
    if |text| <= width {
      OneSpan(text, width, Span(0, |text|));
      WrappingIsUnique(text, width, spans, [Span(0, |text|)]);
    } else {
      SpaceBetween(text, at, width);
      TwoSpans(text, width, Span(0, at), Span(at + 1, |text|));
      WrappingIsUnique(text, width, spans, [Span(0, at), Span(at + 1, |text|)]);
    }
  }

  lemma SpaceBetween(text: string, at: nat, width: nat)
    requires 0 < at <= width && at + 1 < |text| && width < |text| && IsSpace(text[at])
    requires forall k :: 0 <= k < |text| && k != at ==> !IsBlank(text[k])
    ensures GoodLine(text, width, Span(0, at)) && StartsAt(text, AfterBreak(text, at), at + 1)
  {
    assert WrapsGreedily(text, width, Span(0, at));
    assert AfterBreak(text, at) == at && SpacesOnly(text, at, at + 1);
  }

  /** A line break ends the line, however it is written and however much room there is. */
  lemma TwoLines(a: string, lineBreak: string, b: string, width: nat, spans: seq<Span>)
    requires IsWord(a) && IsWord(b) && |a| <= width && |b| <= width
    requires lineBreak == "\n" || lineBreak == "\r" || lineBreak == "\r\n"
    requires IsWrapping(a + lineBreak + b, width, spans)
    ensures var next := |a| + |lineBreak|; spans == [Span(0, |a|), Span(next, next + |b|)]
  {
    var text := Between(a, lineBreak, b);
    BreakInText(text, |a|, |a| + |lineBreak|, width, spans);
  }

  lemma BreakInText(text: string, at: nat, next: nat, width: nat, spans: seq<Span>)
    requires 0 < at <= width && at < next < |text| <= next + width
    requires text[at..next] == "\n" || text[at..next] == "\r" || text[at..next] == "\r\n"
    requires forall k :: 0 <= k < |text| && !(at <= k < next) ==> !IsBlank(text[k])
    requires IsWrapping(text, width, spans)
    ensures spans == [Span(0, at), Span(next, |text|)]
  {
    BreakBetween(text, at, next);
    TwoSpans(text, width, Span(0, at), Span(next, |text|));
    WrappingIsUnique(text, width, spans, [Span(0, at), Span(next, |text|)]);
  }

  lemma BreakBetween(text: string, at: nat, next: nat)
    requires at < next < |text| && !IsBlank(text[next])
    requires text[at..next] == "\n" || text[at..next] == "\r" || text[at..next] == "\r\n"
    ensures IsNewline(text[at]) && AfterBreak(text, at) == next
  {
    assert text[at] == text[at..next][0] && (next == at + 2 ==> text[at + 1] == text[at..next][1]);
  }

  /** A second line break is an empty line. */
  lemma EmptyLine(a: string, width: nat, spans: seq<Span>)
    requires IsWord(a) && |a| <= width && IsWrapping(a + "\n\n", width, spans)
    ensures spans == [Span(0, |a|), Span(|a| + 1, |a| + 1)]
  {
    var text := a + "\n\n";
    WordHasNoBlank(text, 0, a);
    TwoSpans(text, width, Span(0, |a|), Span(|a| + 1, |a| + 1));
    WrappingIsUnique(text, width, spans, [Span(0, |a|), Span(|a| + 1, |a| + 1)]);
  }
}
