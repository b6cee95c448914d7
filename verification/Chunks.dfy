/**
 Chunk files: headers between exclamation marks that name a class, a side and a category, each
 followed by method sources that end in one.
 */
module Chunks {

  const NAME_MAX := 63
  const SOURCE_MAX := 4095
  const SEGMENT_MAX := 4095

  datatype Chunk = Chunk(cls: string, classSide: bool, category: string, source: string)

  /** The class, side and category that the methods being read belong to; no class before the first header. */
  datatype Current = Current(cls: string, classSide: bool, category: string)

  /** The chunks of a file; a file that is refused may have given some already. */
  datatype Parsed = Chunks(chunks: seq<Chunk>) | Refused(chunks: seq<Chunk>)

  datatype Header = Header(current: Current) | BadHeader

  // ----------------------------------------------------------------- text

  predicate IsBlank(c: char) { c == ' ' || c == '\t' || c == '\n' || c == '\r' }

  predicate IsNameChar(c: char) { 'a' <= c <= 'z' || 'A' <= c <= 'Z' || '0' <= c <= '9' || c == '_' }

  /** The index of the first `c`, or the length. */
  function Until(s: string, c: char): (n: nat)
    ensures n <= |s| && c !in s[..n] && (n < |s| ==> s[n] == c)
  {
    if s == [] || s[0] == c then 0
    else
      var n := Until(s[1..], c);
      assert s[..n + 1] == [s[0]] + s[1..][..n];
      1 + n
  }

  function TrimLeft(s: string): string { if s != [] && IsBlank(s[0]) then TrimLeft(s[1..]) else s }

  function TrimRight(s: string): string { if s != [] && IsBlank(s[|s| - 1]) then TrimRight(s[..|s| - 1]) else s }

  function Trim(s: string): string { TrimRight(TrimLeft(s)) }

  predicate StartsWith(s: string, at: nat, prefix: string) { at + |prefix| <= |s| && s[at..at + |prefix|] == prefix }

  ghost predicate Contains(s: string, part: string) { exists at :: 0 <= at <= |s| && StartsWith(s, at, part) }

  function SkipBlanks(s: string, at: nat): (r: nat)
    requires at <= |s|
    ensures at <= r <= |s|
    ensures r < |s| ==> s[r] != ' ' && s[r] != '\t'
    decreases |s| - at
  {
    if at < |s| && (s[at] == ' ' || s[at] == '\t') then SkipBlanks(s, at + 1) else at
  }

  /** The end of the name at `at`, at most `room` characters on. */
  function NameEnd(s: string, at: nat, room: nat): (r: nat)
    requires at <= |s|
    ensures at <= r <= |s|
    decreases room
  {
    if room > 0 && at < |s| && IsNameChar(s[at]) then NameEnd(s, at + 1, room - 1) else at
  }

  /** The end of the text up to a quote, at most `room` characters on. */
  function QuotedEnd(s: string, at: nat, room: nat): (r: nat)
    requires at <= |s|
    ensures at <= r <= |s|
    decreases room
  {
    if room > 0 && at < |s| && s[at] != '\'' then QuotedEnd(s, at + 1, room - 1) else at
  }

  const METHODS_FOR := "methodsFor:"
  const CLASS := "class"

  // ----------------------------------------------------------------- headers

  /** A header's category, from the quote on. */
  function ParseCategory(segment: string, at: nat, cls: string, classSide: bool): Header
    requires at <= |segment|
  {
    if at == |segment| || segment[at] != '\'' then BadHeader
    else
      var end := QuotedEnd(segment, at + 1, NAME_MAX);
      if end == |segment| || segment[end] != '\'' then BadHeader
      else Header(Current(cls, classSide, segment[at + 1..end]))
  }

  function ParseHeader(segment: string): Header {
    var n := NameEnd(segment, 0, NAME_MAX);
    var p := SkipBlanks(segment, n);
    var classSide := StartsWith(segment, p, CLASS);
    var q := if classSide then SkipBlanks(segment, p + |CLASS|) else p;
    if !StartsWith(segment, q, METHODS_FOR) then BadHeader
    else ParseCategory(segment, SkipBlanks(segment, q + |METHODS_FOR|), segment[..n], classSide)
  }

  // ----------------------------------------------------------------- files

  function Cons(c: Chunk, r: Parsed): Parsed {
    match r
    case Chunks(cs) => Chunks([c] + cs)
    case Refused(cs) => Refused([c] + cs)
  }

  /** What a file gives from here on, when `count` chunks of at most `max` have been read. */
  ghost function Parse(text: string, current: Current, count: nat, max: nat): Parsed
    decreases |text|
  {
    if text == [] then Chunks([])
    else if text[0] == '!' then
      var n := Until(text[1..], '!');
      if n == |text| - 1 then Refused([])
      else
        var segment, rest := Trim(text[1..1 + n]), text[2 + n..];
        if segment == [] then Parse(rest, current, count, max)
        else if |segment| > SEGMENT_MAX then Refused([])
        else if !Contains(segment, METHODS_FOR) then Parse(rest, current, count, max)
        else
          match ParseHeader(segment)
          case BadHeader => Refused([])
          case Header(next) => Parse(rest, next, count, max)
    else if current.cls == [] then Parse(text[1..], current, count, max)
    else
      var n := Until(text, '!');
      if n == |text| then Chunks([])
      else
        var body := Trim(text[..n]);
        if body == [] then Parse(text[n..], current, count, max)
        else if count >= max || |body| > SOURCE_MAX then Refused([])
        else Cons(Chunk(current.cls, current.classSide, current.category, body),
                  Parse(text[n + 1..], current, count + 1, max))
  }

  // ----------------------------------------------------------------- printing

  function PrintHeader(c: Chunk): string {
    c.cls + (if c.classSide then " class" else "") + " methodsFor: '" + c.category + "'"
  }

  function Print(chunks: seq<Chunk>): string {
    if chunks == [] then []
    else "!" + PrintHeader(chunks[0]) + "!" + chunks[0].source + "!" + Print(chunks[1..])
  }

  predicate WellFormed(c: Chunk) {
    && 0 < |c.cls| <= NAME_MAX && (forall i :: 0 <= i < |c.cls| ==> IsNameChar(c.cls[i]))
    && |c.category| <= NAME_MAX && '!' !in c.category && '\'' !in c.category
    && 0 < |c.source| <= SOURCE_MAX && '!' !in c.source && Trim(c.source) == c.source
  }

  lemma {:induction false} UntilFirst(a: string, c: char, b: string)
    requires c !in a
    ensures Until(a + [c] + b, c) == |a|
  {
    if a == [] {
      assert (a + [c] + b)[0] == c;
    } else {
      assert (a + [c] + b)[1..] == a[1..] + [c] + b;
      UntilFirst(a[1..], c, b);
    }
  }

  lemma {:induction false} NameEnds(name: string, rest: string, done: nat, room: nat)
    requires done <= |name| && |name| - done <= room && forall i :: 0 <= i < |name| ==> IsNameChar(name[i])
    requires rest == [] || !IsNameChar(rest[0])
    ensures NameEnd(name + rest, done, room) == |name|
    decreases |name| - done
  {
    if done < |name| {
      NameEnds(name, rest, done + 1, room - 1);
    }
  }

  lemma {:induction false} QuoteEnds(s: string, at: nat, category: string, room: nat)
    requires at + |category| < |s| && s[at..at + |category|] == category && '\'' !in category
             && s[at + |category|] == '\'' && |category| <= room
    ensures QuotedEnd(s, at, room) == at + |category|
    decreases |category|
  {
    if category != [] {
      assert s[at] == category[0];
      assert s[at + 1..at + |category|] == category[1..];
      QuoteEnds(s, at + 1, category[1..], room - 1);
    }
  }

  lemma Blank(s: string, at: nat)
    requires at + 1 < |s| && s[at] == ' ' && s[at + 1] != ' ' && s[at + 1] != '\t'
    ensures SkipBlanks(s, at) == at + 1
  {
    assert SkipBlanks(s, at + 1) == at + 1;
  }

  lemma StartsAt(a: string, part: string, b: string)
    ensures StartsWith(a + part + b, |a|, part)
  {
  }

  /** Where the pieces of a header's end are. */
  lemma Pieces(front: string, word: string, category: string, h: string, q: nat, end: nat)
    requires h == front + [' '] + word + [' ', '\''] + category + ['\''] && q == |front| + 1 && end == q + |word|
    ensures |h| == end + |category| + 3 && h[q - 1] == ' ' && h[q..end] == word && h[end] == ' ' && h[end + 1] == '\''
    ensures h[end + 2..end + 2 + |category|] == category && h[end + 2 + |category|] == '\''
  {
    assert h[..end] == front + [' '] + word;
    assert h[q..end] == h[..end][q..];
  }

  lemma Words()
    ensures |METHODS_FOR| == 11 && METHODS_FOR[0] == 'm' && |CLASS| == 5 && CLASS[0] == 'c'
  {
  }

  /** The blank before a word, the word, the blank after it. */
  lemma WordBack(front: string, word: string, category: string, h: string, q: nat, end: nat)
    requires h == front + [' '] + word + [' ', '\''] + category + ['\''] && word != [] && word[0] == 'm'
    requires q == |front| + 1 && end == q + |word|
    ensures end <= |h| && SkipBlanks(h, |front|) == q && StartsWith(h, q, word) && !StartsWith(h, q, CLASS)
            && SkipBlanks(h, end) == end + 1
  {
    hide SkipBlanks, CLASS;
    Pieces(front, word, category, h, q, end);
    FirstOf(h, word, q, end);
    NotClass(h, q);
    Blank(h, |front|);
    Blank(h, end);
  }

  lemma FirstOf(h: string, word: string, q: nat, end: nat)
    requires q < end <= |h| && h[q..end] == word
    ensures h[q] == word[0] && StartsWith(h, q, word)
  {
  }

  lemma QuoteBack(front: string, word: string, category: string, h: string, cls: string, classSide: bool)
    requires h == front + [' '] + word + [' ', '\''] + category + ['\''] && |category| <= NAME_MAX && '\'' !in category
    ensures |front| + |word| + 2 <= |h|
    ensures ParseCategory(h, |front| + |word| + 2, cls, classSide) == Header(Current(cls, classSide, category))
  {
    hide QuotedEnd, ParseCategory;
    var at := |front| + |word| + 2;
    Pieces(front, word, category, h, |front| + 1, |front| + 1 + |word|);
    QuoteEnds(h, at + 1, category, NAME_MAX);
    CategoryBack(h, at, category, cls, classSide);
  }

  /** The end of a header, after its class and side. */
  lemma RestBack(front: string, category: string, h: string, cls: string, classSide: bool)
    requires h == front + [' '] + METHODS_FOR + [' ', '\''] + category + ['\''] && |category| <= NAME_MAX
             && '\'' !in category
    ensures var q := |front| + 1;
            && q + |METHODS_FOR| <= |h| && SkipBlanks(h, |front|) == q && StartsWith(h, q, METHODS_FOR)
               && !StartsWith(h, q, CLASS)
            && ParseCategory(h, SkipBlanks(h, q + |METHODS_FOR|), cls, classSide)
               == Header(Current(cls, classSide, category))
  {
    hide *;
    Words();
    WordBack(front, METHODS_FOR, category, h, |front| + 1, |front| + 1 + |METHODS_FOR|);
    QuoteBack(front, METHODS_FOR, category, h, cls, classSide);
  }

  lemma CategoryBack(h: string, at: nat, category: string, cls: string, classSide: bool)
    requires at + 1 + |category| < |h| && h[at] == '\'' && h[at + 1 + |category|] == '\''
             && h[at + 1..at + 1 + |category|] == category
    requires QuotedEnd(h, at + 1, NAME_MAX) == at + 1 + |category|
    ensures ParseCategory(h, at, cls, classSide) == Header(Current(cls, classSide, category))
  {
  }

  lemma NotClass(h: string, q: nat)
    requires q < |h| && h[q] == 'm'
    ensures !StartsWith(h, q, CLASS)
  {
    assert q + 5 <= |h| ==> h[q..q + 5][0] == 'm';
  }

  lemma SidePieces(cls: string, rest: string, h: string)
    requires h == cls + [' '] + CLASS + rest
    ensures StartsWith(h, |cls| + 1, CLASS) && h[|cls|] == ' ' && h[|cls| + 1] == 'c'
  {
    assert h == (cls + [' ']) + CLASS + rest;
    StartsAt(cls + [' '], CLASS, rest);
    assert h[|cls| + 1..|cls| + 1 + |CLASS|][0] == CLASS[0];
  }

  /** A printed header is parsed back. */
  lemma HeaderBack(c: Chunk)
    requires WellFormed(c)
    ensures ParseHeader(PrintHeader(c)) == Header(Current(c.cls, c.classSide, c.category))
  {
    hide SkipBlanks, ParseCategory, NameEnd;
    var h := PrintHeader(c);
    var side := if c.classSide then [' '] + CLASS else "";
    var end := [' '] + METHODS_FOR + [' ', '\''] + c.category + ['\''];
    HeaderPieces(c);
    Words();
    hide PrintHeader, METHODS_FOR, CLASS;
    assert h == c.cls + (side + end) && (side + end)[0] == ' ';
    NameEnds(c.cls, side + end, 0, NAME_MAX);
    assert h == c.cls + side + [' '] + METHODS_FOR + [' ', '\''] + c.category + ['\''];
    RestBack(c.cls + side, c.category, h, c.cls, c.classSide);
    assert h[..|c.cls|] == c.cls;
    if c.classSide {
      assert h == c.cls + [' '] + CLASS + end;
      SidePieces(c.cls, end, h);
      Blank(h, |c.cls|);
    }
  }

  lemma HeaderPieces(c: Chunk)
    ensures PrintHeader(c) == c.cls + (if c.classSide then [' '] + CLASS else "")
            + ([' '] + METHODS_FOR + [' ', '\''] + c.category + ['\''])
  {
    assert " methodsFor: '" == [' '] + METHODS_FOR + [' ', '\''];
    assert " class" == [' '] + CLASS;
  }

  lemma {:induction false} TrimKeeps(s: string)
    requires s != [] && !IsBlank(s[0]) && !IsBlank(s[|s| - 1])
    ensures Trim(s) == s
  {
  }

  lemma NoBang(c: Chunk)
    requires WellFormed(c)
    ensures '!' !in PrintHeader(c)
  {
  }

  /**
   Round trip: a printed list of well-formed chunks is parsed as that list, whatever class was
   current before.
   */
  lemma {:induction false} PrintParse(chunks: seq<Chunk>, current: Current, count: nat, max: nat)
    requires count + |chunks| <= max && forall i :: 0 <= i < |chunks| ==> WellFormed(chunks[i])
    ensures Parse(Print(chunks), current, count, max) == Chunks(chunks)
    decreases |chunks|
  {
    if chunks != [] {
      var c, rest := chunks[0], chunks[1..];
      var h := PrintHeader(c);
      var after := c.source + "!" + Print(rest);
      ParseStep(c, Print(rest), current, count, max);
      PrintParse(rest, Current(c.cls, c.classSide, c.category), count + 1, max);
    }
  }

  lemma BangPieces(h: string, after: string)
    requires '!' !in h
    ensures var text := ['!'] + h + ['!'] + after;
            && text[0] == '!' && |text| == 2 + |h| + |after| && Until(text[1..], '!') == |h|
            && text[1..1 + |h|] == h && text[2 + |h|..] == after
  {
    var text := ['!'] + h + ['!'] + after;
    assert text[1..] == h + ['!'] + after;
    UntilFirst(h, '!', after);
  }

  lemma SegmentStep(h: string, after: string, current: Current, next: Current, count: nat, max: nat)
    requires '!' !in h && Trim(h) == h && 0 < |h| <= SEGMENT_MAX && Contains(h, METHODS_FOR)
             && ParseHeader(h) == Header(next)
    ensures Parse(['!'] + h + ['!'] + after, current, count, max) == Parse(after, next, count, max)
  {
    hide ParseHeader, Trim, Contains, METHODS_FOR, Until;
    BangPieces(h, after);
  }

  /** A header is read off the front of a file. */
  lemma HeaderStep(c: Chunk, after: string, current: Current, count: nat, max: nat)
    requires WellFormed(c)
    ensures Parse("!" + PrintHeader(c) + "!" + after, current, count, max)
            == Parse(after, Current(c.cls, c.classSide, c.category), count, max)
  {
    hide ParseHeader, Trim, Contains, METHODS_FOR, Parse, PrintHeader;
    HeaderFacts(c);
    HeaderBack(c);
    NoBang(c);
    SegmentStep(PrintHeader(c), after, current, Current(c.cls, c.classSide, c.category), count, max);
  }

  /** A method source is read off the front of a file. */
  lemma SourceStep(c: Chunk, rest: string, count: nat, max: nat)
    requires WellFormed(c) && count < max
    ensures var current := Current(c.cls, c.classSide, c.category);
            Parse(c.source + "!" + rest, current, count, max) == Cons(c, Parse(rest, current, count + 1, max))
  {
    hide Trim, Cons, Contains, ParseHeader;
    var text := c.source + "!" + rest;
    UntilFirst(c.source, '!', rest);
    assert text[..|c.source|] == c.source && text[|c.source| + 1..] == rest;
    assert text[0] == c.source[0] && c.source[0] in c.source;
  }

  /** One chunk, header and source, is read off the front of a file. */
  lemma ParseStep(c: Chunk, rest: string, current: Current, count: nat, max: nat)
    requires WellFormed(c) && count < max
    ensures Parse("!" + PrintHeader(c) + "!" + c.source + "!" + rest, current, count, max)
            == Cons(c, Parse(rest, Current(c.cls, c.classSide, c.category), count + 1, max))
  {
    hide Parse, PrintHeader, WellFormed, Cons;
    HeaderStep(c, c.source + "!" + rest, current, count, max);
    SourceStep(c, rest, count, max);
    assert "!" + PrintHeader(c) + "!" + c.source + "!" + rest == "!" + PrintHeader(c) + "!" + (c.source + "!" + rest);
  }

  lemma HeaderFacts(c: Chunk)
    requires WellFormed(c)
    ensures Trim(PrintHeader(c)) == PrintHeader(c) && 0 < |PrintHeader(c)| <= SEGMENT_MAX
            && Contains(PrintHeader(c), METHODS_FOR)
  {
    var h := PrintHeader(c);
    assert h[0] == c.cls[0] && h[|h| - 1] == '\'';
    assert IsNameChar(c.cls[0]);
    TrimKeeps(h);
    HeaderPieces(c);
    var front := c.cls + if c.classSide then [' '] + CLASS else "";
    assert h == (front + [' ']) + METHODS_FOR + ([' ', '\''] + c.category + ['\'']);
    StartsAt(front + [' '], METHODS_FOR, [' ', '\''] + c.category + ['\'']);
    assert StartsWith(h, |front| + 1, METHODS_FOR);
  }

  // ----------------------------------------------------------------- files as they are written

  predicate Blanks(s: string) { forall i :: 0 <= i < |s| ==> IsBlank(s[i]) }

  /** A method's source with blanks around it. */
  datatype Padded = Padded(before: string, source: string, after: string)

  /**
   A header with blanks around it, after blanks and segments that are no headers, and the methods that
   follow it.
   */
  datatype Section = Section(gap: string, remarks: seq<string>, before: string, cls: string, classSide: bool,
                             category: string, after: string, methods: seq<Padded>)

  function PrintMethods(methods: seq<Padded>): string {
    if methods == [] then ""
    else methods[0].before + methods[0].source + methods[0].after + "!" + PrintMethods(methods[1..])
  }

  function PrintRemarks(remarks: seq<string>): string {
    if remarks == [] then "" else "!" + remarks[0] + "!" + PrintRemarks(remarks[1..])
  }

  function HeadOf(s: Section, source: string): Chunk { Chunk(s.cls, s.classSide, s.category, source) }

  function PrintSections(sections: seq<Section>): string {
    if sections == [] then ""
    else
      var s := sections[0];
      s.gap + (PrintRemarks(s.remarks)
               + ("!" + (s.before + PrintHeader(HeadOf(s, "")) + s.after) + "!"
                  + (PrintMethods(s.methods) + PrintSections(sections[1..]))))
  }

  function MethodChunks(s: Section, methods: seq<Padded>): (r: seq<Chunk>)
    ensures |r| == |methods|
  {
    if methods == [] then [] else [HeadOf(s, methods[0].source)] + MethodChunks(s, methods[1..])
  }

  function AllChunks(sections: seq<Section>): seq<Chunk> {
    if sections == [] then [] else MethodChunks(sections[0], sections[0].methods) + AllChunks(sections[1..])
  }

  ghost predicate IsRemark(r: string) { '!' !in r && |r| <= SEGMENT_MAX && !Contains(Trim(r), METHODS_FOR) }

  ghost predicate WellPadded(s: Section) {
    && Blanks(s.gap) && Blanks(s.before) && Blanks(s.after) && (forall r :: r in s.remarks ==> IsRemark(r))
    && WellFormed(HeadOf(s, "x")) && |s.before| + |PrintHeader(HeadOf(s, ""))| + |s.after| <= SEGMENT_MAX
    && forall m :: m in s.methods ==> Blanks(m.before) && Blanks(m.after) && WellFormed(HeadOf(s, m.source))
  }

  lemma {:induction false} TrimLeftPadded(before: string, s: string)
    requires Blanks(before)
    ensures TrimLeft(before + s) == TrimLeft(s)
    decreases |before|
  {
    if before == "" {
      assert before + s == s;
    } else {
      assert (before + s)[1..] == before[1..] + s;
      TrimLeftPadded(before[1..], s);
    }
  }

  lemma {:induction false} TrimRightPadded(s: string, after: string)
    requires Blanks(after)
    ensures TrimRight(s + after) == TrimRight(s)
    decreases |after|
  {
    if after == "" {
      assert s + after == s;
    } else {
      var shorter := after[..|after| - 1];
      assert (s + after)[..|s + after| - 1] == s + shorter;
      TrimRightPadded(s, shorter);
    }
  }

  /** Blanks around a text are trimmed, and blanks alone to nothing. */
  lemma TrimPadded(before: string, s: string, after: string)
    requires Blanks(before) && Blanks(after)
    ensures s != "" && !IsBlank(s[0]) && !IsBlank(s[|s| - 1]) ==> Trim(before + s + after) == s
    ensures Trim(before) == ""
  {
    TrimLeftPadded(before, "");
    assert before + "" == before;
    if s != "" && !IsBlank(s[0]) && !IsBlank(s[|s| - 1]) {
      assert before + s + after == before + (s + after);
      TrimLeftPadded(before, s + after);
      TrimRightPadded(s, after);
    }
  }

  /** A chunk that is trimmed has no blanks at its ends. */
  lemma TrimmedEnds(s: string)
    requires s != "" && Trim(s) == s
    ensures !IsBlank(s[0]) && !IsBlank(s[|s| - 1])
  {
    Shorter(s);
    ShorterRight(TrimLeft(s));
  }

  lemma {:induction false} Shorter(s: string)
    ensures |TrimLeft(s)| <= |s| && (s != "" && IsBlank(s[0]) ==> |TrimLeft(s)| < |s|)
    ensures !(s != "" && IsBlank(s[0])) ==> TrimLeft(s) == s
    decreases |s|
  {
    if s != "" && IsBlank(s[0]) {
      Shorter(s[1..]);
    }
  }

  lemma {:induction false} ShorterRight(s: string)
    ensures |TrimRight(s)| <= |s| && (s != "" && IsBlank(s[|s| - 1]) ==> |TrimRight(s)| < |s|)
    decreases |s|
  {
    if s != "" && IsBlank(s[|s| - 1]) {
      ShorterRight(s[..|s| - 1]);
    }
  }

  /** Blanks between what ends in a mark and the next one, whether a class is known or not. */
  lemma {:induction false} GapStep(gap: string, after: string, current: Current, count: nat, max: nat)
    requires Blanks(gap) && after != "" && after[0] == '!'
    ensures Parse(gap + after, current, count, max) == Parse(after, current, count, max)
    decreases |gap|
  {
    var text := gap + after;
    if gap == "" {
      assert text == after;
    } else if current.cls == "" {
      assert text[0] == gap[0] && IsBlank(gap[0]) && text[1..] == gap[1..] + after;
      GapStep(gap[1..], after, current, count, max);
    } else {
      hide Trim, ParseHeader, Contains;
      assert text == gap + ['!'] + after[1..] && text[0] == gap[0] && IsBlank(gap[0]);
      UntilFirst(gap, '!', after[1..]);
      assert text[..|gap|] == gap && text[|gap|..] == after;
      TrimPadded(gap, "", "");
    }
  }

  lemma RemarkStep(r: string, after: string, current: Current, count: nat, max: nat)
    requires IsRemark(r)
    ensures Parse("!" + r + "!" + after, current, count, max) == Parse(after, current, count, max)
  {
    hide ParseHeader, METHODS_FOR, Until;
    BangPieces(r, after);
    assert "!" + r + "!" + after == ['!'] + r + ['!'] + after;
    TrimShort(r);
    hide Trim;
  }

  lemma TrimShort(s: string)
    ensures |Trim(s)| <= |s|
  {
    Shorter(s);
    ShorterRight(TrimLeft(s));
  }

  lemma {:induction false} RemarksStep(remarks: seq<string>, after: string, current: Current, count: nat, max: nat)
    requires forall r :: r in remarks ==> IsRemark(r)
    ensures Parse(PrintRemarks(remarks) + after, current, count, max) == Parse(after, current, count, max)
    decreases |remarks|
  {
    hide Parse, IsRemark;
    if remarks == [] {
      assert PrintRemarks(remarks) + after == after;
    } else {
      RemarkStep(remarks[0], PrintRemarks(remarks[1..]) + after, current, count, max);
      RemarksStep(remarks[1..], after, current, count, max);
      assert PrintRemarks(remarks) + after == "!" + remarks[0] + "!" + (PrintRemarks(remarks[1..]) + after);
    }
  }

  lemma PaddedHeader(s: Section, after: string, current: Current, count: nat, max: nat)
    requires WellPadded(s)
    ensures Parse("!" + (s.before + PrintHeader(HeadOf(s, "")) + s.after) + "!" + after, current, count, max)
            == Parse(after, Current(s.cls, s.classSide, s.category), count, max)
  {
    hide ParseHeader, Contains, METHODS_FOR, Until, PrintHeader, IsRemark;
    var c := HeadOf(s, "x");
    var h := PrintHeader(c);
    assert h == PrintHeader(HeadOf(s, "")) by { SameHeader(s); }
    HeaderFacts(c);
    HeaderBack(c);
    NoBang(c);
    TrimmedEnds(h);
    TrimPadded(s.before, h, s.after);
    var segment := s.before + h + s.after;
    hide Trim, WellFormed;
    BangPieces(segment, after);
    assert "!" + segment + "!" + after == ['!'] + segment + ['!'] + after;
  }

  lemma SameHeader(s: Section)
    ensures PrintHeader(HeadOf(s, "x")) == PrintHeader(HeadOf(s, ""))
  {
  }

  lemma PaddedSource(s: Section, m: Padded, rest: string, count: nat, max: nat)
    requires Blanks(m.before) && Blanks(m.after) && WellFormed(HeadOf(s, m.source)) && count < max
    ensures var current := Current(s.cls, s.classSide, s.category);
            Parse(m.before + m.source + m.after + "!" + rest, current, count, max)
            == Cons(HeadOf(s, m.source), Parse(rest, current, count + 1, max))
  {
    hide Cons, Contains, ParseHeader;
    TrimmedEnds(m.source);
    TrimPadded(m.before, m.source, m.after);
    hide Trim;
    var all := m.before + m.source + m.after;
    var text := all + "!" + rest;
    assert '!' !in all by { NoMark(m); }
    assert text == all + ['!'] + rest;
    UntilFirst(all, '!', rest);
    assert text[..|all|] == all && text[|all| + 1..] == rest && text[0] == all[0] && all[0] in all;
  }

  lemma NoMark(m: Padded)
    requires Blanks(m.before) && Blanks(m.after) && '!' !in m.source
    ensures '!' !in m.before + m.source + m.after
  {
    assert forall c :: c in m.before || c in m.after ==> c != '!';
  }

  /** The chunks given, then those of what follows. */
  lemma {:induction false} MethodsStep(s: Section, methods: seq<Padded>, rest: string, count: nat, max: nat)
    requires WellPadded(s) && (forall m :: m in methods ==> m in s.methods) && count + |methods| <= max
    ensures var current := Current(s.cls, s.classSide, s.category);
            Parse(PrintMethods(methods) + rest, current, count, max)
            == Prepend(MethodChunks(s, methods), Parse(rest, current, count + |methods|, max))
    decreases |methods|
  {
    hide *;
    var current := Current(s.cls, s.classSide, s.category);
    if methods == [] {
      NoMethods(s, methods, rest, Parse(rest, current, count, max));
    } else {
      var m, more := methods[0], PrintMethods(methods[1..]) + rest;
      assert m in methods;
      MethodFacts(s, m);
      PaddedSource(s, m, more, count, max);
      assert forall n :: n in methods[1..] ==> n in methods;
      MethodsStep(s, methods[1..], rest, count + 1, max);
      MethodsText(methods, rest);
      OneMore(s, methods, Parse(rest, current, count + |methods|, max));
    }
  }

  lemma NoMethods(s: Section, methods: seq<Padded>, rest: string, r: Parsed)
    requires methods == []
    ensures PrintMethods(methods) + rest == rest && Prepend(MethodChunks(s, methods), r) == r
  {
    assert "" + rest == rest;
  }

  lemma MethodFacts(s: Section, m: Padded)
    requires WellPadded(s) && m in s.methods
    ensures Blanks(m.before) && Blanks(m.after) && WellFormed(HeadOf(s, m.source))
  {
  }

  lemma MethodsText(methods: seq<Padded>, rest: string)
    requires methods != []
    ensures PrintMethods(methods) + rest
            == methods[0].before + methods[0].source + methods[0].after + "!" + (PrintMethods(methods[1..]) + rest)
  {
    Associates(methods[0].before + methods[0].source + methods[0].after + "!", PrintMethods(methods[1..]), rest);
  }

  lemma Associates(a: string, b: string, c: string)
    ensures a + b + c == a + (b + c)
  {
  }

  lemma OneMore(s: Section, methods: seq<Padded>, r: Parsed)
    requires methods != []
    ensures Cons(HeadOf(s, methods[0].source), Prepend(MethodChunks(s, methods[1..]), r))
            == Prepend(MethodChunks(s, methods), r)
  {
    assert MethodChunks(s, methods) == [HeadOf(s, methods[0].source)] + MethodChunks(s, methods[1..]);
    hide *;
    ConsPrepend(HeadOf(s, methods[0].source), MethodChunks(s, methods[1..]), r);
  }

  lemma ConsPrepend(c: Chunk, cs: seq<Chunk>, r: Parsed)
    ensures Cons(c, Prepend(cs, r)) == Prepend([c] + cs, r)
  {
    match r
    case Chunks(more) => SeqAssociates([c], cs, more);
    case Refused(more) => SeqAssociates([c], cs, more);
  }

  lemma SeqAssociates(a: seq<Chunk>, b: seq<Chunk>, c: seq<Chunk>)
    ensures a + b + c == a + (b + c)
  {
  }

  /** Text without a mark gives nothing: what comes before the first header, and a last method without its end. */
  lemma {:induction false} Unfinished(text: string, current: Current, count: nat, max: nat)
    requires '!' !in text
    ensures Parse(text, current, count, max) == Chunks([])
    ensures Parse("!" + text, current, count, max) == Refused([])
    decreases |text|
  {
    hide Trim, ParseHeader, Contains;
    if text != "" {
      Unfinished(text[1..], current, count, max);
    }
    NoneThere(text);
    assert ("!" + text)[1..] == text;
  }

  lemma {:induction false} NoneThere(text: string)
    requires '!' !in text
    ensures Until(text, '!') == |text|
  {
    if text != "" {
      NoneThere(text[1..]);
    }
  }

  /**
   A file as it is written: any number of headers, each followed by any number of methods, with blanks
   around all of them, segments that are no headers in between, and a rest without a mark.  Its chunks
   are its methods, each with the class, side and category of the header before it.
   */
  lemma {:induction false} SectionsParse(sections: seq<Section>, rest: string, current: Current, count: nat, max: nat)
    requires (forall s :: s in sections ==> WellPadded(s)) && count + |AllChunks(sections)| <= max && '!' !in rest
    ensures Parse(PrintSections(sections) + rest, current, count, max) == Chunks(AllChunks(sections))
    decreases |sections|
  {
    hide Parse, WellPadded, PrintHeader, PrintMethods, PrintRemarks;
    if sections == [] {
      assert PrintSections(sections) + rest == rest;
      Unfinished(rest, current, count, max);
    } else {
      var s, more := sections[0], PrintSections(sections[1..]) + rest;
      var header := "!" + (s.before + PrintHeader(HeadOf(s, "")) + s.after) + "!";
      var next := Current(s.cls, s.classSide, s.category);
      SectionStep(s, more, current, count, max);
      SectionsParse(sections[1..], rest, next, count + |s.methods|, max);
      assert PrintSections(sections) + rest
             == s.gap + (PrintRemarks(s.remarks) + (header + (PrintMethods(s.methods) + more)));
    }
  }

  lemma SectionFacts(s: Section)
    requires WellPadded(s)
    ensures Blanks(s.gap) && forall r :: r in s.remarks ==> IsRemark(r)
  {
  }

  lemma MarkFirst(remarks: seq<string>, segment: string, rest: string)
    ensures var text := PrintRemarks(remarks) + ("!" + segment + "!" + rest); text != "" && text[0] == '!'
  {
  }

  lemma SectionStep(s: Section, more: string, current: Current, count: nat, max: nat)
    requires WellPadded(s) && count + |s.methods| <= max
    ensures var header := "!" + (s.before + PrintHeader(HeadOf(s, "")) + s.after) + "!";
            Parse(s.gap + (PrintRemarks(s.remarks) + (header + (PrintMethods(s.methods) + more))), current, count, max)
            == Prepend(MethodChunks(s, s.methods),
                       Parse(more, Current(s.cls, s.classSide, s.category), count + |s.methods|, max))
  {
    hide *;
    var header := "!" + (s.before + PrintHeader(HeadOf(s, "")) + s.after) + "!";
    var after := header + (PrintMethods(s.methods) + more);
    SectionFacts(s);
    MarkFirst(s.remarks, s.before + PrintHeader(HeadOf(s, "")) + s.after, PrintMethods(s.methods) + more);
    GapStep(s.gap, PrintRemarks(s.remarks) + after, current, count, max);
    RemarksStep(s.remarks, after, current, count, max);
    PaddedHeader(s, PrintMethods(s.methods) + more, current, count, max);
    MethodsStep(s, s.methods, more, count, max);
  }

  // ----------------------------------------------------------------- the parser in place

  function Prepend(cs: seq<Chunk>, r: Parsed): Parsed {
    match r
    case Chunks(more) => Chunks(cs + more)
    case Refused(more) => Refused(cs + more)
  }

  method FindBang(source: string, from: nat) returns (at: nat)
    requires from <= |source|
    ensures from <= at <= |source| && at == from + Until(source[from..], '!')
  {
    at := from;
    while at < |source| && source[at] != '!'
      invariant from <= at <= |source| && from + Until(source[from..], '!') == at + Until(source[at..], '!')
    {
      assert source[at..][1..] == source[at + 1..];
      at := at + 1;
    }
  }

  /** The bounds of a stretch of text without the blanks at its ends. */
  method TrimRange(source: string, start: nat, end: nat) returns (s: nat, e: nat)
    requires start <= end <= |source|
    ensures start <= s <= e <= end && source[s..e] == Trim(source[start..end])
  {
    s, e := start, end;
    while s < e && IsBlank(source[s])
      invariant start <= s <= e && TrimLeft(source[s..e]) == TrimLeft(source[start..e])
    {
      assert source[s..e][1..] == source[s + 1..e];
      s := s + 1;
    }
    assert source[s..e] == TrimLeft(source[start..end]);
    while e > s && IsBlank(source[e - 1])
      invariant s <= e <= end && TrimRight(source[s..e]) == Trim(source[start..end])
    {
      assert source[s..e][..e - s - 1] == source[s..e - 1];
      e := e - 1;
    }
  }

  method FindText(segment: string, part: string) returns (found: bool)
    ensures found <==> Contains(segment, part)
  {
    var at := 0;
    while at <= |segment|
      invariant forall k :: 0 <= k < at && k <= |segment| ==> !StartsWith(segment, k, part)
    {
      if at + |part| <= |segment| && segment[at..at + |part|] == part {
        assert StartsWith(segment, at, part);
        return true;
      }
      at := at + 1;
    }
    return false;
  }

  method Skip(segment: string, from: nat) returns (at: nat)
    requires from <= |segment|
    ensures at == SkipBlanks(segment, from)
  {
    at := from;
    while at < |segment| && (segment[at] == ' ' || segment[at] == '\t')
      invariant from <= at <= |segment| && SkipBlanks(segment, at) == SkipBlanks(segment, from)
    {
      at := at + 1;
    }
  }

  method ReadName(segment: string) returns (end: nat)
    ensures end == NameEnd(segment, 0, NAME_MAX)
  {
    end := 0;
    while end < |segment| && IsNameChar(segment[end]) && end < NAME_MAX
      invariant end <= |segment| && end <= NAME_MAX
                && NameEnd(segment, end, NAME_MAX - end) == NameEnd(segment, 0, NAME_MAX)
    {
      end := end + 1;
    }
  }

  method ReadHeader(segment: string) returns (r: Header)
    ensures r == ParseHeader(segment)
  {
    hide SkipBlanks, NameEnd, ParseCategory, METHODS_FOR, CLASS;
    var end := ReadName(segment);
    var pos := Skip(segment, end);
    var classSide := pos + |CLASS| <= |segment| && segment[pos..pos + |CLASS|] == CLASS;
    if classSide {
      pos := Skip(segment, pos + |CLASS|);
    }
    if !(pos + |METHODS_FOR| <= |segment| && segment[pos..pos + |METHODS_FOR|] == METHODS_FOR) {
      return BadHeader;
    }
    pos := Skip(segment, pos + |METHODS_FOR|);
    r := ReadCategory(segment, pos, segment[..end], classSide);
  }

  method ReadCategory(segment: string, at: nat, cls: string, classSide: bool) returns (r: Header)
    requires at <= |segment|
    ensures r == ParseCategory(segment, at, cls, classSide)
  {
    if at == |segment| || segment[at] != '\'' {
      return BadHeader;
    }
    var pos := at + 1;
    while pos < |segment| && segment[pos] != '\'' && pos - at - 1 < NAME_MAX
      invariant at < pos <= |segment| && pos - at - 1 <= NAME_MAX
      invariant QuotedEnd(segment, pos, NAME_MAX - (pos - at - 1)) == QuotedEnd(segment, at + 1, NAME_MAX)
    {
      pos := pos + 1;
    }
    if pos == |segment| || segment[pos] != '\'' {
      return BadHeader;
    }
    return Header(Current(cls, classSide, segment[at + 1..pos]));
  }

  /** What follows a `!`: the segment up to the next one, and the class that is current after it. */
  method ReadSegment(source: string, index: nat, current: Current, ghost count: nat, ghost max: nat)
      returns (ok: bool, index1: nat, current1: Current)
    requires index < |source| && source[index] == '!'
    ensures index < index1 <= |source|
    ensures Parse(source[index..], current, count, max) == if ok then Parse(source[index1..], current1, count, max)
                                                                      else Refused([])
  {
    hide ParseHeader, Trim, Contains, METHODS_FOR, Parse, Until;
    ghost var text := source[index..];
    assert text[1..] == source[index + 1..];
    SegmentUnfold(text, current, count, max);
    var end := FindBang(source, index + 1);
    index1, current1 := |source|, current;
    if end == |source| {
      return false, index1, current1;
    }
    var s, e := TrimRange(source, index + 1, end);
    index1 := end + 1;
    assert text[1..1 + Until(text[1..], '!')] == source[index + 1..end]
           && text[2 + Until(text[1..], '!')..] == source[index1..];
    if s == e {
      return true, index1, current1;
    }
    var segment := source[s..e];
    if |segment| > SEGMENT_MAX {
      return false, index1, current1;
    }
    var isHeader := FindText(segment, METHODS_FOR);
    if isHeader {
      var header := ReadHeader(segment);
      if header == BadHeader {
        return false, index1, current1;
      }
      current1 := header.current;
    }
    ok := true;
  }

  lemma SegmentUnfold(text: string, current: Current, count: nat, max: nat)
    requires text != [] && text[0] == '!'
    ensures var n, p := Until(text[1..], '!'), Parse(text, current, count, max);
            if n == |text| - 1 then p == Refused([])
            else
              var segment, rest := Trim(text[1..1 + n]), text[2 + n..];
              if segment == [] then p == Parse(rest, current, count, max)
              else if |segment| > SEGMENT_MAX then p == Refused([])
              else if !Contains(segment, METHODS_FOR) then p == Parse(rest, current, count, max)
              else p == if ParseHeader(segment).Header? then Parse(rest, ParseHeader(segment).current, count, max)
                                                             else Refused([])
  {
    hide ParseHeader, Trim, Contains, METHODS_FOR, Until;
  }

  datatype Step = Finished | Overfull | BlankOnly | Read(chunk: Chunk)

  /** A method source, up to the next `!`; blanks alone leave that `!` for a header. */
  method ReadSource(source: string, index: nat, current: Current, count: nat, max: nat) returns (r: Step, index1: nat)
    requires index < |source| && source[index] != '!' && current.cls != ""
    ensures index < index1 <= |source|
    ensures var p := Parse(source[index..], current, count, max);
            match r
            case Finished => p == Chunks([])
            case Overfull => p == Refused([])
            case BlankOnly => p == Parse(source[index1..], current, count, max)
            case Read(c) => p == Cons(c, Parse(source[index1..], current, count + 1, max))
  {
    hide Trim, Cons, Parse, Until;
    var end := FindBang(source, index);
    index1 := |source|;
    ghost var n := Until(source[index..], '!');
    SourceUnfold(source[index..], current, count, max);
    if end == |source| {
      return Finished, index1;
    }
    var s, e := TrimRange(source, index, end);
    assert source[index..][..n] == source[index..end] && source[index..][n..] == source[end..]
           && source[index..][n + 1..] == source[end + 1..];
    if s == e {
      return BlankOnly, end;
    }
    index1 := end + 1;
    if count >= max || e - s > SOURCE_MAX {
      return Overfull, index1;
    }
    return Read(Chunk(current.cls, current.classSide, current.category, source[s..e])), index1;
  }

  lemma SourceUnfold(text: string, current: Current, count: nat, max: nat)
    requires text != [] && text[0] != '!' && current.cls != ""
    ensures var n, p := Until(text, '!'), Parse(text, current, count, max);
            if n == |text| then p == Chunks([])
            else
              var body := Trim(text[..n]);
              && 0 < n
              && if body == [] then p == Parse(text[n..], current, count, max)
                 else if count >= max || |body| > SOURCE_MAX then p == Refused([])
                 else p == Cons(Chunk(current.cls, current.classSide, current.category, body),
                                Parse(text[n + 1..], current, count + 1, max))
  {
  }

  /** Reads a file of chunks, at most `max` of them. */
  method ParseMethodChunks(source: string, max: nat) returns (ok: bool, chunks: seq<Chunk>)
    ensures Parse(source, Current("", false, ""), 0, max) == if ok then Chunks(chunks) else Refused(chunks)
  {
    hide Parse;
    var current := Current("", false, "");
    ghost var whole := Parse(source, current, 0, max);
    chunks := [];
    var index := 0;
    assert source[0..] == source;
    while index < |source|
      invariant index <= |source| && whole == Prepend(chunks, Parse(source[index..], current, |chunks|, max))
    {
      if source[index] == '!' {
        var more;
        more, index, current := ReadSegment(source, index, current, |chunks|, max);
        if !more {
          return false, chunks;
        }
      } else if current.cls == "" {
        BeforeHeader(source, index, current, |chunks|, max);
        index := index + 1;
      } else {
        var r;
        r, index := ReadSource(source, index, current, |chunks|, max);
        match r
        case Finished => return true, chunks;
        case Overfull => return false, chunks;
        case BlankOnly =>
        case Read(c) =>
          chunks := chunks + [c];
      }
    }
    assert source[index..] == [];
    AtEnd(current, |chunks|, max);
    return true, chunks;
  }

  lemma BeforeHeader(source: string, index: nat, current: Current, count: nat, max: nat)
    requires index < |source| && source[index] != '!' && current.cls == ""
    ensures Parse(source[index..], current, count, max) == Parse(source[index + 1..], current, count, max)
  {
    assert source[index..][1..] == source[index + 1..];
  }

  lemma AtEnd(current: Current, count: nat, max: nat)
    ensures Parse([], current, count, max) == Chunks([])
  {
  }
}
