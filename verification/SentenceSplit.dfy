/**
  Splitting narration text for the speech provider (splitSentences, hardWrap): segments of at most
  a given length, cut at sentence ends, else at spaces, else anywhere. One unit per character.
 */
module SentenceSplit {
  import opened Common
  import opened PhpStrings

  /** What \s matches, and what trim() strips. */
  predicate IsSpace(c: char) {
    Trimmable(c) || c == 12 as char
  }

  ghost predicate NulFree(s: string) {
    forall i | 0 <= i < |s| :: s[i] != '\0'
  }

  /** The narrated characters of a text, in order. */
  function Kept(s: string): string {
    if s == "" then ""
    else Kept(s[..|s| - 1]) + if IsSpace(s[|s| - 1]) then "" else [s[|s| - 1]]
  }

  /** The narrated characters of a list of texts, one text after the other. */
  function KeptAll(parts: seq<string>): string {
    if parts == [] then "" else KeptAll(parts[..|parts| - 1]) + Kept(parts[|parts| - 1])
  }

  predicate IsSentenceEnd(c: char) {
    c == '.' || c == '!' || c == '?'
  }

  /** The length of the separator (?<=[.!?])\s+|\n+ matches at position p, 0 when it does not match there. */
  function SeparatorAt(text: string, p: nat): (n: nat)
    requires p < |text|
    ensures p + n <= |text|
  {
    if 0 < p && IsSentenceEnd(text[p - 1]) && IsSpace(text[p]) then SpaceRun(text, p)
    else if text[p] == '\n' then NewlineRun(text, p)
    else 0
  }

  function SpaceRun(text: string, p: nat): (n: nat)
    requires p <= |text|
    ensures p + n <= |text|
    decreases |text| - p
  {
    if p < |text| && IsSpace(text[p]) then 1 + SpaceRun(text, p + 1) else 0
  }

  function NewlineRun(text: string, p: nat): (n: nat)
    requires p <= |text|
    ensures p + n <= |text|
    decreases |text| - p
  {
    if p < |text| && text[p] == '\n' then 1 + NewlineRun(text, p + 1) else 0
  }

  lemma {:induction false} RunsAreSpace(text: string, p: nat)
    requires p <= |text|
    ensures forall k | p <= k < p + SpaceRun(text, p) :: IsSpace(text[k])
    ensures forall k | p <= k < p + NewlineRun(text, p) :: IsSpace(text[k])
    decreases |text| - p
  {
    if p < |text| {
      RunsAreSpace(text, p + 1);
    }
  }

  /** A separator is white space only. */
  lemma SeparatorIsSpace(text: string, p: nat)
    requires p < |text|
    ensures forall k | p <= k < p + SeparatorAt(text, p) :: IsSpace(text[k])
  {
    RunsAreSpace(text, p);
  }

  /** A separator starts here and is n characters long: all the white space after a sentence's end, or all newlines. */
  ghost predicate SeparatesFor(text: string, p: nat, n: nat) {
    var afterEnd := 0 < p < |text| && text[p - 1] in {'.', '!', '?'} && IsSpace(text[p]);
    && 0 < n && p + n <= |text|
    && (forall k | p <= k < p + n :: if afterEnd then IsSpace(text[k]) else text[k] == '\n')
    && (p + n < |text| ==> if afterEnd then !IsSpace(text[p + n]) else text[p + n] != '\n')
  }

  lemma {:induction false} RunsAreMaximal(text: string, p: nat)
    requires p <= |text|
    ensures p + SpaceRun(text, p) < |text| ==> !IsSpace(text[p + SpaceRun(text, p)])
    ensures p + NewlineRun(text, p) < |text| ==> text[p + NewlineRun(text, p)] != '\n'
    ensures forall k | p <= k < p + NewlineRun(text, p) :: text[k] == '\n'
    decreases |text| - p
  {
    if p < |text| {
      RunsAreMaximal(text, p + 1);
    }
  }

  /** What the pattern matches at a position, and how much of it. */
  lemma {:induction false} SeparatorIff(text: string, p: nat, n: nat)
    requires p < |text| && 0 < n
    ensures SeparatorAt(text, p) == n <==> SeparatesFor(text, p, n)
  {
    RunsAreSpace(text, p);
    RunsAreMaximal(text, p);
    var m := SeparatorAt(text, p);
    if SeparatesFor(text, p, n) {
      assert text[p] == '\n' || (0 < p && IsSentenceEnd(text[p - 1]) && IsSpace(text[p]));
      assert 0 < m;
    }
  }

  lemma {:induction false} KeptConcat(a: string, b: string)
    ensures Kept(a + b) == Kept(a) + Kept(b)
  {
    if b == "" {
      assert a + b == a;
    } else {
      var n := |b| - 1;
      KeptConcat(a, b[..n]);
      assert (a + b)[..|a + b| - 1] == a + b[..n];
    }
  }

  lemma {:induction false} KeptOfSpaces(s: string)
    requires forall k | 0 <= k < |s| :: IsSpace(s[k])
    ensures Kept(s) == ""
  {
    if s != "" {
      KeptOfSpaces(s[..|s| - 1]);
    }
  }

  /** Cutting out a stretch that is all whitespace loses nothing. */
  lemma KeptAcrossGap(text: string, a: nat, b: nat, c: nat)
    requires a <= b <= c <= |text|
    requires forall k | b <= k < c :: IsSpace(text[k])
    ensures Kept(text[..c]) == Kept(text[..a]) + Kept(text[a..b])
  {
    assert text[..c] == text[..a] + text[a..b] + text[b..c];
    KeptConcat(text[..a] + text[a..b], text[b..c]);
    KeptConcat(text[..a], text[a..b]);
    KeptOfSpaces(text[b..c]);
  }

  lemma {:induction false} TrimLeftKeeps(s: string)
    ensures Kept(TrimLeft(s)) == Kept(s) && |TrimLeft(s)| <= |s|
  {
    if s != "" && Trimmable(s[0]) {
      TrimLeftKeeps(s[1..]);
      KeptConcat([s[0]], s[1..]);
      KeptOfSpaces([s[0]]);
      assert s == [s[0]] + s[1..];
    }
  }

  lemma {:induction false} TrimRightKeeps(s: string)
    ensures Kept(TrimRight(s)) == Kept(s) && |TrimRight(s)| <= |s|
  {
    if s != "" && Trimmable(s[|s| - 1]) {
      TrimRightKeeps(s[..|s| - 1]);
    }
  }

  lemma TrimKeeps(s: string)
    ensures Kept(Trim(s)) == Kept(s) && |Trim(s)| <= |TrimLeft(s)| <= |s|
  {
    TrimLeftKeeps(s);
    TrimRightKeeps(TrimLeft(s));
  }

  lemma {:induction false} TrimLeftEnds(s: string)
    ensures TrimLeft(s) == "" || !Trimmable(TrimLeft(s)[0])
  {
    if s != "" && Trimmable(s[0]) {
      TrimLeftEnds(s[1..]);
    }
  }

  lemma {:induction false} TrimRightNonEmpty(s: string)
    requires s != "" && !Trimmable(s[0])
    ensures TrimRight(s) != ""
  {
    if Trimmable(s[|s| - 1]) {
      TrimRightNonEmpty(s[..|s| - 1]);
    }
  }

  lemma TrimEmptyIff(s: string)
    ensures Trim(s) == "" <==> TrimLeft(s) == ""
  {
    TrimLeftEnds(s);
    if TrimLeft(s) != "" {
      TrimRightNonEmpty(TrimLeft(s));
    }
  }

  lemma {:induction false} TrimLeftPast(a: string, b: string)
    requires TrimLeft(a) == ""
    ensures TrimLeft(a + b) == TrimLeft(b)
  {
    if a == "" {
      assert a + b == b;
    } else {
      assert (a + b)[1..] == a[1..] + b;
      TrimLeftPast(a[1..], b);
    }
  }

  /** Segments as they are sent: none empty, none over the cap. */
  ghost predicate Fit(segments: seq<string>, maxChars: nat) {
    forall k | 0 <= k < |segments| :: 0 < |segments[k]| <= maxChars
  }

  function NonEmpty(s: string): seq<string> {
    if s == "" then [] else [s]
  }

  /** A piece of a text, and where the next one starts. */
  datatype Span = Span(start: nat, end: nat, next: nat)

  predicate Within(span: Span, text: string) {
    span.start <= span.end <= span.next <= |text|
  }

  /** The spans follow one another from the start of the text up to n. */
  ghost predicate Consecutive(spans: seq<Span>, n: nat) {
    if spans == [] then n == 0
    else spans[|spans| - 1].next == n && Consecutive(spans[..|spans| - 1], spans[|spans| - 1].start)
  }

  function PiecesOf(spans: seq<Span>, text: string): seq<string> {
    if spans == [] then []
    else
      var last := spans[|spans| - 1];
      PiecesOf(spans[..|spans| - 1], text) + [if Within(last, text) then text[last.start..last.end] else ""]
  }

  /** What lies between two pieces is white space. */
  ghost predicate OnlySpaceLost(spans: seq<Span>, text: string) {
    forall i | 0 <= i < |spans| ::
      Within(spans[i], text) && forall k | spans[i].end <= k < spans[i].next :: IsSpace(text[k])
  }

  /** Then the pieces hold all that is narrated. */
  lemma {:induction false} PiecesKeep(spans: seq<Span>, text: string, n: nat)
    requires n <= |text| && Consecutive(spans, n) && OnlySpaceLost(spans, text)
    ensures KeptAll(PiecesOf(spans, text)) == Kept(text[..n])
  {
    if spans != [] {
      var m := |spans| - 1;
      var last := spans[m];
      PiecesKeep(spans[..m], text, last.start);
      KeptAcrossGap(text, last.start, last.end, last.next);
      AppendKept(PiecesOf(spans[..m], text), text[last.start..last.end]);
    }
  }

  // Sentences.

  /** A separator ends the span as early as it can, and as a whole; the last span has none. */
  ghost predicate AtSeparator(span: Span, text: string) {
    && Within(span, text)
    && (span.end < |text| ==> 0 < SeparatorAt(text, span.end) == span.next - span.end)
    && forall k | span.start <= k < span.end :: SeparatorAt(text, k) == 0
  }

  ghost predicate AllAtSeparators(spans: seq<Span>, text: string) {
    forall i | 0 <= i < |spans| :: AtSeparator(spans[i], text)
  }

  function NonEmptyOnes(pieces: seq<string>): seq<string> {
    if pieces == [] then [] else NonEmptyOnes(pieces[..|pieces| - 1]) + NonEmpty(pieces[|pieces| - 1])
  }

  /** What preg_split with PREG_SPLIT_NO_EMPTY gives, and the fallback to the whole text. */
  ghost predicate AreSentences(sentences: seq<string>, spans: seq<Span>, text: string) {
    && Consecutive(spans, |text|) && AllAtSeparators(spans, text)
    && var pieces := NonEmptyOnes(PiecesOf(spans, text));
       sentences == if pieces == [] then [text] else pieces
  }

  ghost predicate IsSplit(sentences: seq<string>, text: string) {
    exists spans :: AreSentences(sentences, spans, text)
  }

  /** The sentences found before start. */
  ghost predicate SplitUpTo(sentences: seq<string>, spans: seq<Span>, text: string, start: nat) {
    && Consecutive(spans, start) && AllAtSeparators(spans, text)
    && sentences == NonEmptyOnes(PiecesOf(spans, text))
  }

  method PregSplit(text: string) returns (sentences: seq<string>)
    ensures IsSplit(sentences, text)
  {
    sentences := [];
    ghost var spans: seq<Span> := [];
    var start, p := 0, 0;
    while p < |text|
      invariant 0 <= start <= p <= |text|
      invariant forall k | start <= k < p :: SeparatorAt(text, k) == 0
      invariant SplitUpTo(sentences, spans, text, start)
    {
      var n := SeparatorAt(text, p);
      if n > 0 {
        sentences, spans := AddNonEmpty(sentences, spans, text, Span(start, p, p + n));
        start := p + n;
        p := start;
      } else {
        p := p + 1;
      }
    }
    sentences, spans := AddNonEmpty(sentences, spans, text, Span(start, p, p));
    SplitEnds(sentences, spans, text);
    if sentences == [] {
      sentences := [text];
    }
  }

  lemma SplitEnds(sentences: seq<string>, spans: seq<Span>, text: string)
    requires SplitUpTo(sentences, spans, text, |text|)
    ensures IsSplit(if sentences == [] then [text] else sentences, text)
  {
    assert AreSentences(if sentences == [] then [text] else sentences, spans, text);
  }

  method AddNonEmpty(sentences: seq<string>, ghost spans: seq<Span>, text: string, span: Span)
    returns (sentences': seq<string>, ghost spans': seq<Span>)
    requires SplitUpTo(sentences, spans, text, span.start) && AtSeparator(span, text)
    ensures spans' == spans + [span] && SplitUpTo(sentences', spans', text, span.next)
  {
    var sentence := text[span.start..span.end];
    spans' := spans + [span];
    sentences' := if sentence != "" then sentences + [sentence] else sentences;
    assert sentences + [] == sentences;
  }

  lemma {:induction false} NonEmptyOnesKeep(pieces: seq<string>)
    ensures KeptAll(NonEmptyOnes(pieces)) == KeptAll(pieces)
  {
    if pieces != [] {
      var n := |pieces| - 1;
      NonEmptyOnesKeep(pieces[..n]);
      KeptAllAppend(NonEmptyOnes(pieces[..n]), NonEmpty(pieces[n]));
    }
  }

  lemma SeparatorsAreSpace(spans: seq<Span>, text: string)
    requires AllAtSeparators(spans, text)
    ensures OnlySpaceLost(spans, text)
  {
    forall i | 0 <= i < |spans|
      ensures Within(spans[i], text) && forall k | spans[i].end <= k < spans[i].next :: IsSpace(text[k])
    {
      assert AtSeparator(spans[i], text);
      if spans[i].end < |text| {
        SeparatorIsSpace(text, spans[i].end);
      }
    }
  }

  /** Only white space is lost in the split. */
  lemma SentencesKeep(sentences: seq<string>, text: string)
    requires IsSplit(sentences, text)
    ensures KeptAll(sentences) == Kept(text)
  {
    var spans: seq<Span> :| AreSentences(sentences, spans, text);
    SeparatorsAreSpace(spans, text);
    PiecesKeep(spans, text, |text|);
    NonEmptyOnesKeep(PiecesOf(spans, text));
    assert text[..|text|] == text;
    if NonEmptyOnes(PiecesOf(spans, text)) == [] {
      AppendKept([], text);
      assert [] + [text] == [text];
    }
  }

  ghost predicate AllNulFree(parts: seq<string>) {
    forall k | 0 <= k < |parts| :: NulFree(parts[k])
  }

  lemma {:induction false} PiecesNulFree(spans: seq<Span>, text: string)
    requires NulFree(text)
    ensures AllNulFree(PiecesOf(spans, text))
  {
    if spans != [] {
      PiecesNulFree(spans[..|spans| - 1], text);
    }
  }

  lemma {:induction false} NonEmptyNulFree(pieces: seq<string>)
    requires AllNulFree(pieces)
    ensures AllNulFree(NonEmptyOnes(pieces))
  {
    if pieces != [] {
      NonEmptyNulFree(pieces[..|pieces| - 1]);
    }
  }

  lemma SentencesNulFree(sentences: seq<string>, text: string)
    requires NulFree(text) && IsSplit(sentences, text)
    ensures AllNulFree(sentences)
  {
    var spans: seq<Span> :| AreSentences(sentences, spans, text);
    PiecesNulFree(spans, text);
    NonEmptyNulFree(PiecesOf(spans, text));
  }

  lemma AppendKept(parts: seq<string>, s: string)
    ensures KeptAll(parts + [s]) == KeptAll(parts) + Kept(s)
  {
    assert (parts + [s])[..|parts|] == parts;
  }

  /** Joining the parts keeps the same characters as going through them one by one. */
  lemma {:induction false} KeptAllIsKept(parts: seq<string>)
    ensures KeptAll(parts) == Kept(Concat(parts))
  {
    if parts != [] {
      var n := |parts| - 1;
      KeptAllIsKept(parts[..n]);
      assert parts == parts[..n] + [parts[n]];
      ConcatSnoc(parts[..n], parts[n]);
      KeptConcat(Concat(parts[..n]), parts[n]);
    }
  }

  // Cutting up.

  /**
    A blank goes to the break, and it is the last one that leaves the piece within the width; a word is cut only where
    it fills the whole width and goes on.
   */
  ghost predicate GoodCut(span: Span, text: string, width: nat) {
    && Within(span, text) && span.end - span.start <= width
    && if span.next == span.end
       then span.end < |text| ==>
         span.end - span.start == width && forall k | span.start < k <= span.end :: text[k] != ' '
       else
         && span.next == span.end + 1 && text[span.end] == ' '
         && span.start + width < |text| && forall k | span.end < k <= span.start + width :: text[k] != ' '
  }

  ghost predicate AllGoodCuts(spans: seq<Span>, text: string, width: nat) {
    forall k | 0 <= k < |spans| :: GoodCut(spans[k], text, width)
  }

  ghost predicate Wrapped(spans: seq<Span>, text: string, n: nat, width: nat) {
    Consecutive(spans, n) && AllGoodCuts(spans, text, width)
  }

  /** The pieces of a text between breaks at blanks, or inside words that fill the width. */
  ghost predicate IsWrapping(pieces: seq<string>, text: string, width: nat) {
    exists spans :: Wrapped(spans, text, |text|, width) && pieces == PiecesOf(spans, text)
  }

  lemma {:induction false} PiecesAreNarrow(spans: seq<Span>, text: string, width: nat)
    requires AllGoodCuts(spans, text, width)
    ensures forall k | 0 <= k < |PiecesOf(spans, text)| :: |PiecesOf(spans, text)[k]| <= width
  {
    if spans != [] {
      assert GoodCut(spans[|spans| - 1], text, width);
      PiecesAreNarrow(spans[..|spans| - 1], text, width);
    }
  }

  /** What is between the breaks is all that is narrated. */
  lemma WrapKeeps(pieces: seq<string>, text: string, width: nat)
    requires IsWrapping(pieces, text, width)
    ensures KeptAll(pieces) == Kept(text)
    ensures forall k | 0 <= k < |pieces| :: |pieces[k]| <= width
  {
    var spans: seq<Span> :| Wrapped(spans, text, |text|, width) && pieces == PiecesOf(spans, text);
    forall i | 0 <= i < |spans|
      ensures Within(spans[i], text) && forall k | spans[i].end <= k < spans[i].next :: IsSpace(text[k])
    {
      assert GoodCut(spans[i], text, width);
    }
    PiecesKeep(spans, text, |text|);
    PiecesAreNarrow(spans, text, width);
    assert text[..|text|] == text;
  }

  /** Where the scan is: the piece under way starts at lastStart, the last blank seen is at lastSpace. */
  ghost predicate Scanning(text: string, lastStart: nat, lastSpace: nat, current: nat, width: nat) {
    && lastStart <= current <= |text| && current - lastStart <= width && lastSpace <= current
    && (lastStart < lastSpace ==> lastSpace < current && text[lastSpace] == ' ' && lastSpace - lastStart < width)
    && forall k | lastStart < k < current && lastSpace < k :: text[k] != ' '
  }

  /** PHP's wordwrap with cutting, as the pieces between the break characters. */
  method WordWrap(text: string, width: nat) returns (pieces: seq<string>)
    requires 0 < width
    ensures IsWrapping(pieces, text, width)
  {
    pieces := [];
    ghost var spans: seq<Span> := [];
    var current, lastStart, lastSpace := 0, 0, 0;
    while current < |text|
      invariant Scanning(text, lastStart, lastSpace, current, width)
      invariant Wrapped(spans, text, lastStart, width) && pieces == PiecesOf(spans, text)
      decreases |text| - current
    {
      var cut;
      cut, lastStart, lastSpace := ScanOne(text, lastStart, lastSpace, current, width);
      if cut.Some? {
        pieces, spans := Cut(pieces, spans, text, cut.value, width);
      }
      current := current + 1;
    }
    pieces, spans := Cut(pieces, spans, text, Span(lastStart, current, current), width);
    assert Wrapped(spans, text, |text|, width);
  }

  /** One character of the scan, and the piece it completes. */
  method ScanOne(text: string, start: nat, space: nat, current: nat, width: nat)
    returns (cut: Option<Span>, lastStart: nat, lastSpace: nat)
    requires 0 < width && current < |text| && Scanning(text, start, space, current, width)
    ensures Scanning(text, lastStart, lastSpace, current + 1, width)
    ensures if cut == None then lastStart == start
            else cut.value.start == start && cut.value.next == lastStart && GoodCut(cut.value, text, width)
  {
    cut, lastStart, lastSpace := None, start, space;
    if text[current] == ' ' {
      if current - lastStart >= width {
        cut := Some(Span(lastStart, current, current + 1));
        lastStart := current + 1;
      }
      lastSpace := current;
    } else if current - lastStart >= width && lastStart >= lastSpace {
      cut := Some(Span(lastStart, current, current));
      lastStart, lastSpace := current, current;
    } else if current - lastStart >= width && lastStart < lastSpace {
      cut := Some(Span(lastStart, lastSpace, lastSpace + 1));
      lastStart, lastSpace := lastSpace + 1, lastSpace + 1;
    }
  }

  method Cut(pieces: seq<string>, ghost spans: seq<Span>, text: string, span: Span, width: nat)
    returns (pieces': seq<string>, ghost spans': seq<Span>)
    requires Wrapped(spans, text, span.start, width) && GoodCut(span, text, width) && pieces == PiecesOf(spans, text)
    ensures spans' == spans + [span]
    ensures Wrapped(spans', text, span.next, width) && pieces' == PiecesOf(spans', text)
  {
    pieces', spans' := pieces + [text[span.start..span.end]], spans + [span];
  }

  function TrimmedPieces(pieces: seq<string>): seq<string> {
    if pieces == [] then [] else TrimmedPieces(pieces[..|pieces| - 1]) + NonEmpty(Trim(pieces[|pieces| - 1]))
  }

  /** These segments are a text cut at blanks, or inside words too long for a segment, and trimmed. */
  ghost predicate Cutting(segments: seq<string>, text: string, maxChars: nat) {
    exists pieces :: IsWrapping(pieces, text, maxChars) && segments == TrimmedPieces(pieces)
  }

  /** hardWrap: the wrapped pieces, trimmed, without the empty ones. */
  method HardWrap(text: string, maxChars: nat) returns (segments: seq<string>)
    requires 0 < maxChars && NulFree(text)
    ensures Cutting(segments, text, maxChars)
    ensures Fit(segments, maxChars) && KeptAll(segments) == Kept(text)
  {
    var wrapped := WordWrap(text, maxChars);
    WrapKeeps(wrapped, text, maxChars);
    TrimmedPiecesKeep(wrapped, maxChars);
    segments := TrimPieces(wrapped);
  }

  /** array_map('trim') followed by array_filter. */
  method TrimPieces(wrapped: seq<string>) returns (segments: seq<string>)
    ensures segments == TrimmedPieces(wrapped)
  {
    segments := [];
    var k := 0;
    while k < |wrapped|
      invariant 0 <= k <= |wrapped|
      invariant segments == TrimmedPieces(wrapped[..k])
    {
      assert wrapped[..k + 1][..k] == wrapped[..k];
      var piece := Trim(wrapped[k]);
      if piece != "" {
        segments := segments + [piece];
      } else {
        assert segments + [] == segments;
      }
      k := k + 1;
    }
    assert wrapped[..k] == wrapped;
  }

  /** Trimming the pieces loses only white space and leaves none too long. */
  lemma {:induction false} TrimmedPiecesKeep(pieces: seq<string>, maxChars: nat)
    requires forall k | 0 <= k < |pieces| :: |pieces[k]| <= maxChars
    ensures Fit(TrimmedPieces(pieces), maxChars) && KeptAll(TrimmedPieces(pieces)) == KeptAll(pieces)
  {
    if pieces != [] {
      var n := |pieces| - 1;
      TrimmedPiecesKeep(pieces[..n], maxChars);
      var piece := Trim(pieces[n]);
      TrimKeeps(pieces[n]);
      FitBoth(TrimmedPieces(pieces[..n]), NonEmpty(piece), maxChars);
    }
  }

  lemma {:induction false} FitBoth(a: seq<string>, b: seq<string>, maxChars: nat)
    requires Fit(a, maxChars) && Fit(b, maxChars)
    ensures Fit(a + b, maxChars) && KeptAll(a + b) == KeptAll(a) + KeptAll(b)
  {
    KeptAllAppend(a, b);
  }

  /** Sentences put together in one buffer. */
  function Glued(parts: seq<string>): string {
    if parts == [] then ""
    else
      var before := Glued(parts[..|parts| - 1]);
      before + (if before == "" then "" else " ") + parts[|parts| - 1]
  }

  /** Where segments come from: whole sentences that fit, put together, or one that does not and is cut up. */
  datatype Group = Whole(parts: seq<string>) | CutUp(sentence: string, cutting: seq<string>)

  ghost predicate FitParts(parts: seq<string>, sentences: seq<string>, maxChars: nat) {
    forall k | 0 <= k < |parts| :: parts[k] in sentences && |parts[k]| <= maxChars
  }

  ghost predicate IsGroup(group: Group, sentences: seq<string>, maxChars: nat) {
    match group
    case Whole(parts) => parts != [] && FitParts(parts, sentences, maxChars) && Trim(Glued(parts)) != ""
    case CutUp(sentence, cutting) =>
      sentence in sentences && |sentence| > maxChars && Cutting(cutting, sentence, maxChars)
  }

  function SegmentsOf(groups: seq<Group>): seq<string> {
    if groups == [] then []
    else
      SegmentsOf(groups[..|groups| - 1])
      + match groups[|groups| - 1] case Whole(parts) => [Trim(Glued(parts))] case CutUp(_, cutting) => cutting
  }

  /** With a blank and one more sentence, these would go over the cap. */
  ghost predicate Overflows(parts: seq<string>, sentence: string, maxChars: nat) {
    |Glued(parts)| + 1 + |sentence| > maxChars
  }

  /** Sentences put together are followed only by one that did not fit them. */
  ghost predicate GoesOn(groups: seq<Group>, parts: seq<string>, maxChars: nat) {
    groups != [] && groups[|groups| - 1].Whole? ==>
      parts != [] && Overflows(groups[|groups| - 1].parts, parts[0], maxChars)
  }

  /** No sentence is put into a new segment that would fit the one before. */
  ghost predicate Greedy(groups: seq<Group>, maxChars: nat) {
    groups != [] ==>
      var init, last := groups[..|groups| - 1], groups[|groups| - 1];
      Greedy(init, maxChars) && (last.Whole? ==> GoesOn(init, last.parts, maxChars))
  }

  lemma {:induction false} GreedyAt(groups: seq<Group>, maxChars: nat, k: nat)
    requires Greedy(groups, maxChars) && 0 < k < |groups| && groups[k - 1].Whole? && groups[k].Whole?
    ensures groups[k].parts != [] && Overflows(groups[k - 1].parts, groups[k].parts[0], maxChars)
  {
    if k < |groups| - 1 {
      GreedyAt(groups[..|groups| - 1], maxChars, k);
    }
  }

  ghost predicate AreGroups(groups: seq<Group>, sentences: seq<string>, maxChars: nat) {
    forall k | 0 <= k < |groups| :: IsGroup(groups[k], sentences, maxChars)
  }

  ghost predicate IsPacking(segments: seq<string>, groups: seq<Group>, sentences: seq<string>, maxChars: nat) {
    segments == SegmentsOf(groups) && Greedy(groups, maxChars) && AreGroups(groups, sentences, maxChars)
  }

  /** Only sentences over the cap are cut, and the others fill each segment as far as they can. */
  ghost predicate Packed(segments: seq<string>, sentences: seq<string>, maxChars: nat) {
    exists groups :: IsPacking(segments, groups, sentences, maxChars)
  }

  /** The segments so far, and the buffer with the sentences in it. */
  ghost predicate Buffered(
    segments: seq<string>, current: string, parts: seq<string>, groups: seq<Group>, sentences: seq<string>,
    maxChars: nat)
  {
    && Fit(segments, maxChars) && IsPacking(segments, groups, sentences, maxChars)
    && |TrimLeft(current)| <= maxChars && current == Glued(parts) && FitParts(parts, sentences, maxChars)
  }

  /** The state of the loop. */
  ghost predicate Splitting(
    segments: seq<string>, current: string, parts: seq<string>, groups: seq<Group>, sentences: seq<string>,
    maxChars: nat)
  {
    Buffered(segments, current, parts, groups, sentences, maxChars) && GoesOn(groups, parts, maxChars)
  }

  lemma GroupsSnoc(groups: seq<Group>, group: Group, sentences: seq<string>, maxChars: nat)
    requires AreGroups(groups, sentences, maxChars) && IsGroup(group, sentences, maxChars)
    ensures AreGroups(groups + [group], sentences, maxChars)
  {
    var all := groups + [group];
    forall k | 0 <= k < |all| ensures IsGroup(all[k], sentences, maxChars) {
      assert k < |groups| ==> all[k] == groups[k];
    }
  }

  lemma OneMoreGroup(
    segments: seq<string>, groups: seq<Group>, group: Group, added: seq<string>, sentences: seq<string>, maxChars: nat)
    requires IsPacking(segments, groups, sentences, maxChars) && IsGroup(group, sentences, maxChars)
    requires group.Whole? ==> GoesOn(groups, group.parts, maxChars)
    requires added == match group case Whole(parts) => [Trim(Glued(parts))] case CutUp(_, cutting) => cutting
    ensures IsPacking(segments + added, groups + [group], sentences, maxChars)
  {
    GroupsSnoc(groups, group, sentences, maxChars);
    assert (groups + [group])[..|groups|] == groups;
  }

  /**
    splitSentences: every segment fits, nothing narrated is lost, added or reordered, only sentences longer than the
    cap are cut, at blanks where they have any, and no segment ends before a sentence it could still hold.
   */
  method SplitSentences(text: string, maxChars: nat) returns (segments: seq<string>)
    requires 0 < maxChars && NulFree(text)
    ensures Fit(segments, maxChars)
    ensures Kept(Concat(segments)) == Kept(text)
    ensures exists sentences :: IsSplit(sentences, text) && Packed(segments, sentences, maxChars)
  {
    var sentences := PregSplit(text);
    SentencesKeep(sentences, text);
    SentencesNulFree(sentences, text);
    segments := PackSentences(sentences, maxChars);
    KeptAllIsKept(segments);
  }

  /** The sentences in a buffer until it is full, and what is left in it at the end. */
  method PackSentences(sentences: seq<string>, maxChars: nat) returns (segments: seq<string>)
    requires 0 < maxChars && AllNulFree(sentences)
    ensures Fit(segments, maxChars) && Packed(segments, sentences, maxChars)
    ensures KeptAll(segments) == KeptAll(sentences)
  {
    var current;
    ghost var parts, groups;
    segments, current, parts, groups := BufferSentences(sentences, maxChars);
    segments, current, parts, groups := Flush(segments, current, maxChars, parts, groups, sentences);
  }

  /** The loop of splitSentences. */
  method BufferSentences(sentences: seq<string>, maxChars: nat)
    returns (segments: seq<string>, current: string, ghost parts: seq<string>, ghost groups: seq<Group>)
    requires 0 < maxChars && AllNulFree(sentences)
    ensures Splitting(segments, current, parts, groups, sentences, maxChars)
    ensures KeptAll(segments) + Kept(current) == KeptAll(sentences)
  {
    segments, current, parts, groups := [], "", [], [];
    var k := 0;
    while k < |sentences|
      invariant 0 <= k <= |sentences|
      invariant Splitting(segments, current, parts, groups, sentences, maxChars)
      invariant KeepsUpTo(segments, current, sentences, k)
    {
      ghost var segments0, current0 := segments, current;
      segments, current, parts, groups :=
        AddSentence(segments, current, sentences[k], maxChars, parts, groups, sentences);
      KeptUpTo(segments0, current0, segments, current, sentences, k);
      k := k + 1;
    }
    assert sentences[..k] == sentences;
  }

  /** The segments and the buffer hold what is narrated of the first k sentences. */
  ghost predicate KeepsUpTo(segments: seq<string>, current: string, sentences: seq<string>, k: nat)
    requires k <= |sentences|
  {
    KeptAll(segments) + Kept(current) == KeptAll(sentences[..k])
  }

  lemma KeptSnoc(sentences: seq<string>, k: nat)
    requires k < |sentences|
    ensures KeptAll(sentences[..k + 1]) == KeptAll(sentences[..k]) + Kept(sentences[k])
  {
    assert sentences[..k + 1][..k] == sentences[..k];
  }

  lemma KeptUpTo(
    segments: seq<string>, current: string, segments': seq<string>, current': string, sentences: seq<string>, k: nat)
    requires k < |sentences| && KeepsUpTo(segments, current, sentences, k)
    requires KeptAll(segments') + Kept(current') == KeptAll(segments) + Kept(current) + Kept(sentences[k])
    ensures KeepsUpTo(segments', current', sentences, k + 1)
  {
    KeptSnoc(sentences, k);
  }

  /** One turn of the loop of splitSentences. */
  method AddSentence(
    segments: seq<string>, current: string, sentence: string, maxChars: nat,
    ghost parts: seq<string>, ghost groups: seq<Group>, ghost sentences: seq<string>)
    returns (segments': seq<string>, current': string, ghost parts': seq<string>, ghost groups': seq<Group>)
    requires 0 < maxChars && NulFree(sentence) && sentence in sentences
    requires Splitting(segments, current, parts, groups, sentences, maxChars)
    ensures Splitting(segments', current', parts', groups', sentences, maxChars)
    ensures KeptAll(segments') + Kept(current') == KeptAll(segments) + Kept(current) + Kept(sentence)
    ensures |current| + |sentence| + 1 <= maxChars ==>
      segments' == segments && current' == current + (if current == "" then "" else " ") + sentence
    ensures |sentence| <= maxChars < |current| + |sentence| + 1 && Trim(current) != "" ==>
      segments' == segments + [Trim(current)] && current' == sentence
  {
    if |sentence| > maxChars {
      segments', current', parts', groups' := AddLong(segments, current, sentence, maxChars, parts, groups, sentences);
      return;
    }
    segments', current', parts', groups' := segments, current, parts, groups;
    if |current| + |sentence| + 1 > maxChars && Trim(current) != "" {
      segments', current', parts', groups' := Flush(segments, current, maxChars, parts, groups, sentences);
    }
    Regroup(KeptAll(segments'), Kept(current'), Kept(sentence));
    Regroup(KeptAll(segments), Kept(current), "");
    current', parts' := AddFitting(segments', current', sentence, maxChars, parts', groups', sentences);
  }

  /** A sentence over the cap: flush, then cut it up. */
  method AddLong(
    segments: seq<string>, current: string, sentence: string, maxChars: nat,
    ghost parts: seq<string>, ghost groups: seq<Group>, ghost sentences: seq<string>)
    returns (segments': seq<string>, current': string, ghost parts': seq<string>, ghost groups': seq<Group>)
    requires 0 < maxChars && NulFree(sentence) && sentence in sentences && |sentence| > maxChars
    requires Splitting(segments, current, parts, groups, sentences, maxChars)
    ensures Splitting(segments', current', parts', groups', sentences, maxChars)
    ensures KeptAll(segments') + Kept(current') == KeptAll(segments) + Kept(current) + Kept(sentence)
  {
    segments', current', parts', groups' := Flush(segments, current, maxChars, parts, groups, sentences);
    var pieces := HardWrap(sentence, maxChars);
    AppendPieces(segments', current', parts', groups', sentence, pieces, sentences, maxChars);
    segments', groups' := segments' + pieces, groups' + [CutUp(sentence, pieces)];
    Regroup(KeptAll(segments) + Kept(current), Kept(sentence), "");
  }

  lemma AppendPieces(
    segments: seq<string>, current: string, parts: seq<string>, groups: seq<Group>,
    sentence: string, pieces: seq<string>, sentences: seq<string>, maxChars: nat)
    requires Buffered(segments, current, parts, groups, sentences, maxChars)
    requires IsGroup(CutUp(sentence, pieces), sentences, maxChars)
    requires Fit(pieces, maxChars) && KeptAll(pieces) == Kept(sentence)
    ensures Splitting(segments + pieces, current, parts, groups + [CutUp(sentence, pieces)], sentences, maxChars)
    ensures KeptAll(segments + pieces) == KeptAll(segments) + Kept(sentence)
  {
    KeptAllAppend(segments, pieces);
    OneMoreGroup(segments, groups, CutUp(sentence, pieces), pieces, sentences, maxChars);
  }

  method AddFitting(
    ghost segments: seq<string>, current: string, sentence: string, maxChars: nat,
    ghost parts: seq<string>, ghost groups: seq<Group>, ghost sentences: seq<string>)
    returns (current': string, ghost parts': seq<string>)
    requires sentence in sentences && |sentence| <= maxChars
    requires |current| + |sentence| + 1 <= maxChars || Trim(current) == ""
    requires Buffered(segments, current, parts, groups, sentences, maxChars)
    requires GoesOn(groups, parts + [sentence], maxChars)
    ensures Splitting(segments, current', parts', groups, sentences, maxChars)
    ensures current' == current + (if current == "" then "" else " ") + sentence
    ensures Kept(current') == Kept(current) + Kept(sentence)
  {
    Extend(current, sentence, maxChars);
    current' := current + (if current == "" then "" else " ") + sentence;
    parts' := parts + [sentence];
  }

  lemma FlushKeeps(
    segments: seq<string>, current: string, maxChars: nat, parts: seq<string>, groups: seq<Group>,
    sentences: seq<string>)
    requires Splitting(segments, current, parts, groups, sentences, maxChars)
    ensures Kept("") == "" && (Trim(current) == "" ==> Kept(current) == "")
    ensures Trim(current) != "" ==>
      && Buffered(segments + [Trim(current)], "", [], groups + [Whole(parts)], sentences, maxChars)
      && KeptAll(segments + [Trim(current)]) == KeptAll(segments) + Kept(current)
  {
    TrimKeeps(current);
    if Trim(current) != "" {
      AppendKept(segments, Trim(current));
      OneMoreGroup(segments, groups, Whole(parts), [Trim(current)], sentences, maxChars);
    }
  }

  /** The buffered text becomes a segment, unless it is blank. */
  method Flush(
    segments: seq<string>, current: string, maxChars: nat,
    ghost parts: seq<string>, ghost groups: seq<Group>, ghost sentences: seq<string>)
    returns (segments': seq<string>, current': string, ghost parts': seq<string>, ghost groups': seq<Group>)
    requires Splitting(segments, current, parts, groups, sentences, maxChars)
    ensures Buffered(segments', current', parts', groups', sentences, maxChars)
    ensures KeptAll(segments') == KeptAll(segments) + Kept(current) && Kept(current') == ""
    ensures current' == if Trim(current) == "" then current else ""
    ensures segments' == if Trim(current) == "" then segments else segments + [Trim(current)]
    ensures Trim(current) != "" ==> parts' == [] && groups' == groups + [Whole(parts)] && Glued(parts) == current
  {
    FlushKeeps(segments, current, maxChars, parts, groups, sentences);
    segments', current', parts', groups' := segments, current, parts, groups;
    if Trim(current) != "" {
      segments', groups' := segments + [Trim(current)], groups + [Whole(parts)];
      current', parts' := "", [];
    }
  }

  lemma Regroup(a: string, b: string, c: string)
    ensures a + b + c == a + (b + c) && a + b + "" == a + b && b + "" == b && "" + c == c
  {
  }

  lemma {:induction false} KeptAllAppend(a: seq<string>, b: seq<string>)
    ensures KeptAll(a + b) == KeptAll(a) + KeptAll(b)
  {
    if b == [] {
      assert a + b == a;
    } else {
      var n := |b| - 1;
      var init, last := b[..n], b[n];
      assert b == init + [last];
      assert a + b == (a + init) + [last];
      KeptAllAppend(a, init);
      AppendKept(a + init, last);
      AppendKept(init, last);
      Regroup(KeptAll(a), KeptAll(init), Kept(last));
    }
  }

  /**
    Adding a sentence keeps the buffer within the cap: either it fits, or what is there is blank and will be trimmed.
   */
  lemma Extend(current: string, sentence: string, maxChars: nat)
    requires |sentence| <= maxChars
    requires |current| + |sentence| + 1 <= maxChars || Trim(current) == ""
    ensures var extended := current + (if current == "" then "" else " ") + sentence;
      |TrimLeft(extended)| <= maxChars && Kept(extended) == Kept(current) + Kept(sentence)
  {
    var glue := if current == "" then "" else " ";
    KeptConcat(current + glue, sentence);
    KeptConcat(current, glue);
    KeptOfSpaces(glue);
    TrimLeftKeeps(current + glue + sentence);
    TrimLeftKeeps(sentence);
    if |current| + |sentence| + 1 > maxChars {
      TrimEmptyIff(current);
      TrimLeftPast(current, glue);
      assert " "[1..] == "";
      assert TrimLeft(glue) == "";
      TrimLeftPast(current + glue, sentence);
    }
  }
}
