// source/console.c, lines 203-267: printing text wrapped to a width.

module WordWrap {

  predicate IsSpace(c: char) { c == ' ' || c == '\t' }

  predicate IsNewline(c: char) { c == '\n' || c == '\r' }

  predicate IsBlank(c: char) { IsSpace(c) || IsNewline(c) }

  /** The bytes of a text that leave ink, in order. */
  function Ink(s: string): string {
    if s == [] then []
    else Ink(s[..|s| - 1]) + (if IsBlank(s[|s| - 1]) then [] else [s[|s| - 1]])
  }

  function Flatten(lines: seq<string>): string {
    if lines == [] then [] else Flatten(lines[..|lines| - 1]) + lines[|lines| - 1]
  }

  lemma {:induction false} InkConcat(a: string, b: string)
    ensures Ink(a + b) == Ink(a) + Ink(b)
  {
    if b == [] {
      assert a + b == a;
    } else {
      var n := |b| - 1;
      assert (a + b)[..|a + b| - 1] == a + b[..n];
      InkConcat(a, b[..n]);
    }
  }

  lemma {:induction false} InkOfBlank(s: string)
    requires forall i :: 0 <= i < |s| ==> IsBlank(s[i])
    ensures Ink(s) == []
  {
    if s != [] {
      InkOfBlank(s[..|s| - 1]);
    }
  }

  /** Where a printed line lies in the text: from `start` up to `end`. */
  datatype Span = Span(start: nat, end: nat)

  /** The line stops where the text does, or at a line break. */
  predicate EndsNaturally(text: string, l: Span) {
    l.end == |text| || (l.end < |text| && IsNewline(text[l.end]))
  }

  /** The line stops at the last space that lets it fit: the word behind that space would not have. */
  predicate WrapsGreedily(text: string, width: nat, l: Span) {
    && l.start + width < |text| && l.end <= l.start + width && IsSpace(text[l.end])
    && (forall k :: l.start <= k <= l.start + width ==> !IsNewline(text[k]))
    && (forall k :: l.end < k <= l.start + width ==> !IsSpace(text[k]))
  }

  /** The line is one full width of a word that is longer than the width. */
  predicate SplitsLongWord(text: string, width: nat, l: Span) {
    l.end == l.start + width < |text| && forall k :: l.start <= k <= l.end ==> !IsBlank(text[k])
  }

  predicate GoodLine(text: string, width: nat, l: Span) {
    && l.start <= l.end <= |text| && l.end - l.start <= width
    && (forall k :: l.start <= k < l.end ==> !IsNewline(text[k]))
    && (EndsNaturally(text, l) || WrapsGreedily(text, width, l) || SplitsLongWord(text, width, l))
  }

  /** Behind the one line break at `end`, if there is one there. */
  function AfterBreak(text: string, end: nat): (r: nat)
    ensures end <= r && (end <= |text| ==> r <= |text|)
    ensures forall k :: end <= k < r && k < |text| ==> IsNewline(text[k])
  {
    if end < |text| && text[end] == '\r' then if end + 1 < |text| && text[end + 1] == '\n' then end + 2 else end + 1
    else if end < |text| && text[end] == '\n' then end + 1
    else end
  }

  predicate SpacesOnly(text: string, from: nat, to: nat) {
    from <= to <= |text| && forall k :: from <= k < to ==> IsSpace(text[k])
  }

  /** Where reading goes on behind the first `i` lines. */
  function ResumesAt(text: string, spans: seq<Span>, i: nat): nat
    requires i <= |spans|
  {
    if i == 0 then 0 else AfterBreak(text, spans[i - 1].end)
  }

  predicate StartsAt(text: string, from: nat, start: nat) {
    SpacesOnly(text, from, start) && start < |text| && !IsSpace(text[start])
  }

  /** Each line starts at the first character that is no space behind the previous line and its one line break. */
  predicate Chained(text: string, spans: seq<Span>) {
    forall i :: 0 <= i < |spans| ==> StartsAt(text, ResumesAt(text, spans, i), spans[i].start)
  }

  /** The lines printed so far account for the text up to `p`. */
  ghost predicate Printed(text: string, width: nat, lines: seq<string>, spans: seq<Span>, p: nat) {
    && |spans| == |lines|
    && (forall i :: 0 <= i < |lines| ==>
         GoodLine(text, width, spans[i]) && lines[i] == text[spans[i].start..spans[i].end])
    && Chained(text, spans) && SpacesOnly(text, ResumesAt(text, spans, |spans|), p)
    && Ink(Flatten(lines)) == Ink(text[..p])
  }

  /** One more line, from `start` to `end`, after passing over spaces; then its break and spaces, up to `next`. */
  lemma PrintedMore(text: string, width: nat, lines: seq<string>, spans: seq<Span>, p: nat, l: Span, next: nat)
    requires Printed(text, width, lines, spans, p) && GoodLine(text, width, l)
    requires StartsAt(text, p, l.start) && SpacesOnly(text, AfterBreak(text, l.end), next)
    ensures Printed(text, width, lines + [text[l.start..l.end]], spans + [l], next)
  {
    InkSkipped(text, p, l.start);
    InkEmitted(lines, text, l.start, l.end);
    InkSkipped(text, l.end, next);
    ChainedMore(text, spans, p, l);
  }

  lemma ResumesSame(text: string, spans: seq<Span>, more: seq<Span>, i: nat)
    requires i <= |spans| && spans <= more
    ensures ResumesAt(text, more, i) == ResumesAt(text, spans, i)
  {
  }

  lemma ChainedMore(text: string, spans: seq<Span>, p: nat, l: Span)
    requires Chained(text, spans) && SpacesOnly(text, ResumesAt(text, spans, |spans|), p) && StartsAt(text, p, l.start)
    ensures Chained(text, spans + [l])
  {
    var more := spans + [l];
    forall i | 0 <= i < |more| ensures StartsAt(text, ResumesAt(text, more, i), more[i].start) {
      ResumesSame(text, spans, more, i);
      assert i < |spans| ==> more[i] == spans[i];
    }
  }

  /**
   * `rrc_con_print_wrapped`: for every text and width it stops; no line is longer than the width; all ink is
   * printed once and in order; every line ends at the end of its paragraph, at the last space that lets it fit,
   * or inside a word that is itself longer than the width.
   */
  method PrintWrapped(text: string, requestedWidth: int) returns (lines: seq<string>, ghost spans: seq<Span>)
    ensures forall i :: 0 <= i < |lines| ==> |lines[i]| <= if requestedWidth < 1 then 1 else requestedWidth
    ensures Ink(Flatten(lines)) == Ink(text)
    ensures IsWrapping(text, if requestedWidth < 1 then 1 else requestedWidth, spans)
    ensures Printed(text, if requestedWidth < 1 then 1 else requestedWidth, lines, spans, |text|)
  {
    var width := if requestedWidth < 1 then 1 else requestedWidth;
    lines, spans := PrintLines(text, width);
    WholeTextPrinted(text, width, lines, spans);
  }

  lemma WholeTextPrinted(text: string, width: nat, lines: seq<string>, spans: seq<Span>)
    requires Printed(text, width, lines, spans, |text|)
    ensures forall i :: 0 <= i < |lines| ==> |lines[i]| <= width
    ensures Ink(Flatten(lines)) == Ink(text) && IsWrapping(text, width, spans)
  {
    assert text[..|text|] == text;
  }

  /** The line loop. */
  method PrintLines(text: string, width: nat) returns (lines: seq<string>, ghost spans: seq<Span>)
    requires width >= 1
    ensures Printed(text, width, lines, spans, |text|)
  {
    lines, spans := [], [];
    var p := 0;
    assert text[..0] == [];
    while p < |text|
      invariant Printed(text, width, lines, spans, p)
      decreases |text| - p
    {
      var start := SkipSpaces(text, p);
      if start == |text| {
        InkSkipped(text, p, start);
        p := start;
        break;
      }
      var end, next := NextLine(text, start, width);
      PrintedMore(text, width, lines, spans, p, Span(start, end), next);
      lines, spans := lines + [text[start..end]], spans + [Span(start, end)];
      p := next;
    }
  }

  /** The line that starts here, empty at a line break: where it ends, and where reading goes on. */
  method NextLine(text: string, start: nat, width: nat) returns (end: nat, next: nat)
    requires start < |text| && !IsSpace(text[start]) && width >= 1
    ensures GoodLine(text, width, Span(start, end)) && start < next <= |text|
    ensures SpacesOnly(text, AfterBreak(text, end), next)
  {
    if text[start] == '\r' && start + 1 < |text| && text[start + 1] == '\n' {
      end, next := start, start + 2;
    } else if IsNewline(text[start]) {
      end, next := start, start + 1;
    } else {
      end, next := TakeLine(text, start, width);
    }
  }

  /** One line of a paragraph: where it ends, and where reading goes on. */
  method TakeLine(text: string, start: nat, width: nat) returns (end: nat, next: nat)
    requires start < |text| && !IsBlank(text[start]) && width >= 1
    ensures GoodLine(text, width, Span(start, end)) && start < end <= next <= |text|
    ensures SpacesOnly(text, AfterBreak(text, end), next)
  {
    var p, lastSpace := FillLine(text, start, width);
    if p < |text| && !IsNewline(text[p]) && lastSpace != -1 {
      end, next := lastSpace, lastSpace + 1;
    } else {
      end, next := p, p;
      if next < |text| && text[next] == '\r' {
        next := next + 1;
      }
      if next < |text| && text[next] == '\n' {
        next := next + 1;
      }
    }
  }

  method SkipSpaces(text: string, from: nat) returns (p: nat)
    requires from <= |text|
    ensures from <= p <= |text| && (p == |text| || !IsSpace(text[p]))
    ensures forall i :: from <= i < p ==> IsSpace(text[i])
  {
    p := from;
    while p < |text| && IsSpace(text[p])
      invariant from <= p <= |text|
      invariant forall i :: from <= i < p ==> IsSpace(text[i])
    {
      p := p + 1;
    }
  }

  /** Advances over one line's worth of text, remembering the last space seen, the one behind a full line included. */
  method FillLine(text: string, start: nat, width: nat) returns (p: nat, lastSpace: int)
    requires start < |text| && !IsBlank(text[start]) && width >= 1
    ensures start < p <= |text| && p - start <= width
    ensures p == |text| || IsNewline(text[p]) || p - start == width
    ensures forall i :: start <= i < p ==> !IsNewline(text[i])
    ensures lastSpace == -1 || (start < lastSpace <= p && lastSpace < |text| && IsSpace(text[lastSpace]))
    ensures forall i :: start <= i <= p && i < |text| && i > lastSpace ==> !IsSpace(text[i])
  {
    p, lastSpace := start, -1;
    var len := 0;
    while p < |text| && !IsNewline(text[p])
      invariant start <= p <= |text| && len == p - start <= width
      invariant p == start ==> len < width
      invariant forall i :: start <= i < p ==> !IsNewline(text[i])
      invariant lastSpace == -1 || (start < lastSpace < p && IsSpace(text[lastSpace]))
      invariant forall i :: start <= i < p && i > lastSpace ==> !IsSpace(text[i])
      decreases |text| - p
    {
      if IsSpace(text[p]) {
        lastSpace := p;
      }
      if len >= width {
        break;
      }
      p := p + 1;
      len := len + 1;
    }
  }

  /** Passing over blanks prints nothing and loses no ink. */
  lemma InkSkipped(text: string, from: nat, to: nat)
    requires from <= to <= |text| && forall i :: from <= i < to ==> IsBlank(text[i])
    ensures Ink(text[..to]) == Ink(text[..from])
  {
    assert text[..to] == text[..from] + text[from..to];
    InkConcat(text[..from], text[from..to]);
    InkOfBlank(text[from..to]);
  }

  /** Printing the text from `start` to `end` adds its ink. */
  lemma InkEmitted(lines: seq<string>, text: string, start: nat, end: nat)
    requires start <= end <= |text| && Ink(Flatten(lines)) == Ink(text[..start])
    ensures Ink(Flatten(lines + [text[start..end]])) == Ink(text[..end])
  {
    var more := lines + [text[start..end]];
    assert more[..|more| - 1] == lines;
    InkConcat(Flatten(lines), text[start..end]);
    InkConcat(text[..start], text[start..end]);
    assert text[..end] == text[..start] + text[start..end];
  }

  // ---- The wrapping is the only one of its kind ----

  /** Good lines, each starting where the one before it leads, that leave nothing but spaces behind. */
  ghost predicate IsWrapping(text: string, width: nat, spans: seq<Span>) {
    && (forall i :: 0 <= i < |spans| ==> GoodLine(text, width, spans[i]))
    && Chained(text, spans)
    && SpacesOnly(text, ResumesAt(text, spans, |spans|), |text|)
  }

  lemma SameStart(text: string, from: nat, a: nat, b: nat)
    requires StartsAt(text, from, a) && StartsAt(text, from, b)
    ensures a == b
  {
  }

  /** Where a line starts settles where it ends. */
  lemma SameEnd(text: string, width: nat, l: Span, m: Span)
    requires GoodLine(text, width, l) && GoodLine(text, width, m) && l.start == m.start
    ensures l == m
  {
  }

  lemma SameNext(text: string, width: nat, a: seq<Span>, b: seq<Span>, n: nat)
    requires IsWrapping(text, width, a) && IsWrapping(text, width, b) && n < |a| && n < |b|
    requires SameBefore(a, b, n)
    ensures a[n] == b[n]
  {
    SameStart(text, ResumesAt(text, a, n), a[n].start, b[n].start);
    SameEnd(text, width, a[n], b[n]);
  }

  predicate SameBefore(a: seq<Span>, b: seq<Span>, n: nat)
    requires n <= |a| && n <= |b|
  {
    n == 0 || a[n - 1] == b[n - 1]
  }

  /** Every entry settled by the one before it. */
  predicate StepsAgree(a: seq<Span>, b: seq<Span>) {
    forall n :: 0 <= n < |a| && n < |b| && SameBefore(a, b, n) ==> a[n] == b[n]
  }

  lemma {:induction false} SameLines(a: seq<Span>, b: seq<Span>, k: nat)
    requires StepsAgree(a, b) && k <= |a| && k <= |b|
    ensures forall i :: 0 <= i < k ==> a[i] == b[i]
  {
    if k > 0 {
      var n := k - 1;
      SameLines(a, b, n);
      assert SameBefore(a, b, n);
    }
  }

  lemma WrappingsAgree(text: string, width: nat, a: seq<Span>, b: seq<Span>)
    requires IsWrapping(text, width, a) && IsWrapping(text, width, b)
    ensures StepsAgree(a, b)
  {
    forall n | 0 <= n < |a| && n < |b| && SameBefore(a, b, n) ensures a[n] == b[n] {
      SameNext(text, width, a, b, n);
    }
  }

  /** A text and a width have exactly one wrapping: line breaks included, nothing about the output is left open. */
  lemma WrappingIsUnique(text: string, width: nat, a: seq<Span>, b: seq<Span>)
    requires IsWrapping(text, width, a) && IsWrapping(text, width, b)
    ensures a == b
  {
    var k := if |a| < |b| then |a| else |b|;
    WrappingsAgree(text, width, a, b);
    SameLines(a, b, k);
    if k == |a| {
      NothingFollows(text, width, a, b);
    } else {
      NothingFollows(text, width, b, a);
    }
  }

  /** Behind a whole wrapping no further line can start. */
  lemma NothingFollows(text: string, width: nat, a: seq<Span>, b: seq<Span>)
    requires IsWrapping(text, width, a) && IsWrapping(text, width, b) && a <= b
    ensures a == b
  {
    var k := |a|;
    if k < |b| {
      ResumesSame(text, a, b, k);
      NoStart(text, ResumesAt(text, a, k), b[k].start);
      assert false;
    }
  }

  lemma NoStart(text: string, from: nat, start: nat)
    requires StartsAt(text, from, start)
    ensures !SpacesOnly(text, from, |text|)
  {
    assert from <= start < |text| && !IsSpace(text[start]);
  }
}
