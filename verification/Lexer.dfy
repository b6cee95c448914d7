/**
 The tokenizer of the bootstrap compiler.  `Next` and `Lex` say what the scanning loops
 compute on the text that is still unread; `BtNext` is the scanner itself, which moves an
 index over the source.  A token's `raw` is the slice of source that was consumed for it,
 blanks and comments in front of it included.
 */
module Lexer {

  datatype Kind =
    | Eof | Identifier | Keyword | Integer | Character | String | Symbol
    | Selector | BlockLiteral | LiteralArray | ClassRef | Special

  datatype Token = Token(kind: Kind, text: string, value: int)

  datatype Lexeme = Lexeme(token: Token, raw: string)

  const EOF_TOKEN := Token(Eof, "", 0)

  /** A token's text buffer holds 511 characters and a terminator. */
  const TEXT_MAX := 511

  function Clip(s: string, cap: nat): (r: string)
    ensures |r| <= cap && r <= s
  {
    if |s| <= cap then s else s[..cap]
  }

  predicate IsDigit(c: char) { '0' <= c <= '9' }

  predicate IsAlpha(c: char) { 'a' <= c <= 'z' || 'A' <= c <= 'Z' }

  predicate IsBlank(c: char) { c == ' ' || c == '\t' || c == '\n' || c == '\r' }

  predicate IsBinaryChar(c: char) { c in "+-*/<>=~&|@%,?" }

  /** The character classes the scanning loops run over. */
  datatype Class = Digits | WordChars | SymbolChars | BinaryChars | NoDoubleQuote

  predicate InClass(c: char, k: Class) {
    match k
    case Digits => IsDigit(c)
    case WordChars => IsAlpha(c) || IsDigit(c) || c == '_'
    case SymbolChars => IsAlpha(c) || IsDigit(c) || c == '_' || c == ':'
    case BinaryChars => IsBinaryChar(c)
    case NoDoubleQuote => c != '"'
  }

  /** Length of the longest prefix made of characters of class `k`. */
  function RunLength(s: string, k: Class): (n: nat)
    ensures n <= |s|
    ensures forall i :: 0 <= i < n ==> InClass(s[i], k)
    ensures n < |s| ==> !InClass(s[n], k)
  {
    if s == "" || !InClass(s[0], k) then 0 else 1 + RunLength(s[1..], k)
  }

  /** Length of the comment that `s` starts with; an unclosed comment runs to the end. */
  function CommentLength(s: string): (n: nat)
    requires s != "" && s[0] == '"'
    ensures 1 <= n <= |s|
  {
    var n := RunLength(s[1..], NoDoubleQuote);
    if 1 + n < |s| then n + 2 else n + 1
  }

  /** Length of the blanks and comments that `s` starts with. */
  function BlankLength(s: string): (n: nat)
    ensures n <= |s|
  {
    if s == "" then 0
    else if IsBlank(s[0]) then 1 + BlankLength(s[1..])
    else if s[0] == '"' then CommentLength(s) + BlankLength(s[CommentLength(s)..])
    else 0
  }

  function Decimal(s: string): int
  {
    if s == "" then 0 else 10 * Decimal(s[..|s| - 1]) + (s[|s| - 1] as int - '0' as int)
  }

  /** The characters up to the closing quote, doubled quotes undone, and the length read. */
  function StringBody(s: string): (r: (string, nat))
    ensures r.1 <= |s|
  {
    if s == "" then ("", 0)
    else if s[0] != '\'' then
      var (text, n) := StringBody(s[1..]);
      ([s[0]] + text, n + 1)
    else if |s| > 1 && s[1] == '\'' then
      var (text, n) := StringBody(s[2..]);
      ("'" + text, n + 2)
    else ("", 1)
  }

  function ScanInteger(s: string): (r: (Token, nat))
    ensures r.1 <= |s|
  {
    var n := RunLength(s, Digits);
    (Token(Integer, Clip(s[..n], TEXT_MAX), Decimal(s[..n])), n)
  }

  function ScanWord(s: string): (r: (Token, nat))
    ensures r.1 <= |s|
  {
    var n := RunLength(s, WordChars);
    if n < |s| && s[n] == ':' then (Token(Keyword, Clip(s[..n + 1], TEXT_MAX), 0), n + 1)
    else (Token(Identifier, Clip(s[..n], TEXT_MAX), 0), n)
  }

  /** What follows a `#` that no parenthesis follows. */
  function ScanSymbol(s: string): (r: (Token, nat))
    ensures r.1 <= |s|
  {
    var n := RunLength(s, if s != "" && InClass(s[0], SymbolChars) then SymbolChars else BinaryChars);
    (Token(Symbol, Clip(s[..n], TEXT_MAX), 0), n)
  }

  function Scan(s: string): (r: (Token, nat))
    requires s != ""
    ensures 1 <= r.1 <= |s|
    ensures r.0.kind == Eof ==> r.0 == EOF_TOKEN && r.1 == |s|
  {
    var c := s[0];
    if IsDigit(c) then ScanInteger(s)
    else if c == '$' then
      if |s| == 1 then (EOF_TOKEN, 1) else (Token(Character, [s[1]], s[1] as int), 2)
    else if IsAlpha(c) || c == '_' then ScanWord(s)
    else if c == '\'' then
      var (text, n) := StringBody(s[1..]);
      (Token(String, Clip(text, TEXT_MAX), 0), 1 + n)
    else if c == '#' then
      if |s| > 1 && s[1] == '(' then (Token(Special, "#(", 0), 2)
      else var (token, n) := ScanSymbol(s[1..]); (token, 1 + n)
    else if c == ':' && |s| > 1 && s[1] == '=' then (Token(Special, ":=", 0), 2)
    else (Token(Special, [c], 0), 1)
  }

  function Next(s: string): (r: (Token, nat))
    ensures r.1 <= |s|
    ensures r.0.kind == Eof ==> r.0 == EOF_TOKEN && r.1 == |s|
    ensures r.0.kind != Eof ==> 0 < r.1
  {
    var b := BlankLength(s);
    if b == |s| then (EOF_TOKEN, b)
    else
      var (t, n) := Scan(s[b..]);
      (t, b + n)
  }

  /** All the tokens of a text. */
  function Lex(s: string): (ls: seq<Lexeme>)
    decreases |s|
  {
    var (t, n) := Next(s);
    if t.kind == Eof then [] else [Lexeme(t, s[..n])] + Lex(s[n..])
  }

  /** The source text of a run of tokens. */
  function Raw(ls: seq<Lexeme>): string
  {
    if ls == [] then "" else ls[0].raw + Raw(ls[1..])
  }

  // ----------------------------------------------------------------- cutting a source

  lemma {:induction false} RunLengthUnique(s: string, k: Class, n: nat)
    requires n <= |s|
    requires forall i :: 0 <= i < n ==> InClass(s[i], k)
    requires n < |s| ==> !InClass(s[n], k)
    ensures RunLength(s, k) == n
    decreases n
  {
    if n > 0 {
      RunLengthUnique(s[1..], k, n - 1);
    }
  }

  lemma RunLengthCut(s: string, k: Class, p: nat)
    requires p <= |s| && RunLength(s, k) <= p
    ensures RunLength(s[..p], k) == RunLength(s, k)
  {
    RunLengthUnique(s[..p], k, RunLength(s, k));
  }

  lemma {:induction false} StringBodyCut(s: string, p: nat)
    requires p <= |s| && StringBody(s).1 <= p && (p < |s| ==> s[p] != '\'')
    ensures StringBody(s[..p]) == StringBody(s)
    decreases |s|
  {
    if s == "" || p == 0 {
      assert s[..p] == s || s != "";
    } else if s[0] != '\'' {
      assert s[..p][1..] == s[1..][..p - 1];
      StringBodyCut(s[1..], p - 1);
    } else if |s| > 1 && s[1] == '\'' {
      assert p >= 2;
      assert s[..p][2..] == s[2..][..p - 2];
      StringBodyCut(s[2..], p - 2);
    }
  }

  lemma {:induction false} BlankLengthCut(s: string, p: nat)
    requires p < |s| && s[p] == ']' && BlankLength(s) <= p
    ensures BlankLength(s[..p]) == BlankLength(s)
    decreases |s|
  {
    if p == 0 {
    } else if IsBlank(s[0]) {
      assert s[..p][1..] == s[1..][..p - 1];
      BlankLengthCut(s[1..], p - 1);
    } else if s[0] == '"' {
      var c := CommentLength(s);
      assert c <= p;
      RunLengthCut(s[1..], NoDoubleQuote, p - 1);
      assert s[1..][..p - 1] == s[..p][1..];
      assert CommentLength(s[..p]) == c;
      assert s[..p][c..] == s[c..][..p - c];
      BlankLengthCut(s[c..], p - c);
    }
  }

  lemma ScanIntegerCut(s: string, p: nat)
    requires p <= |s| && ScanInteger(s).1 <= p
    ensures ScanInteger(s[..p]) == ScanInteger(s)
  {
    RunLengthCut(s, Digits, p);
    assert s[..p][..ScanInteger(s).1] == s[..ScanInteger(s).1];
  }

  lemma ScanWordCut(s: string, p: nat)
    requires p < |s| && s[p] != ':' && ScanWord(s).1 <= p
    ensures ScanWord(s[..p]) == ScanWord(s)
  {
    var n := RunLength(s, WordChars);
    RunLengthCut(s, WordChars, p);
    assert s[..p][..n] == s[..n];
    if n < p && s[n] == ':' {
      assert s[..p][..n + 1] == s[..n + 1];
    }
  }

  lemma ScanSymbolCut(s: string, p: nat)
    requires p < |s| && !InClass(s[p], SymbolChars) && ScanSymbol(s).1 <= p
    ensures ScanSymbol(s[..p]) == ScanSymbol(s)
  {
    var k := if s != "" && InClass(s[0], SymbolChars) then SymbolChars else BinaryChars;
    RunLengthCut(s, k, p);
    assert s[..p][..RunLength(s, k)] == s[..RunLength(s, k)];
  }

  lemma ScanCut(s: string, p: nat)
    requires 0 < p < |s| && s[p] == ']' && Scan(s).1 <= p
    ensures Scan(s[..p]) == Scan(s)
  {
    hide ScanInteger, ScanWord, ScanSymbol;
    var c := s[0];
    if IsDigit(c) {
      ScanIntegerCut(s, p);
    } else if IsAlpha(c) || c == '_' {
      ScanWordCut(s, p);
    } else if c == '\'' {
      assert s[..p][1..] == s[1..][..p - 1];
      StringBodyCut(s[1..], p - 1);
    } else if c == '#' && s[1] != '(' {
      assert s[..p][1..] == s[1..][..p - 1];
      ScanSymbolCut(s[1..], p - 1);
    }
  }

  /** The bytes that are read for the first `n` tokens. */
  function Consumed(s: string, n: nat): (k: nat)
    requires n <= |Lex(s)|
    ensures k <= |s|
    decreases n
  {
    if n == 0 then 0 else Next(s).1 + Consumed(s[Next(s).1..], n - 1)
  }

  /** One unfolding of `Lex` and `Consumed`. */
  lemma LexStep(s: string)
    requires Lex(s) != []
    ensures 0 < Next(s).1 && Next(s).0.kind != Eof
    ensures Lex(s) == [Lexeme(Next(s).0, s[..Next(s).1])] + Lex(s[Next(s).1..])
  {
    hide Next;
  }

  lemma {:induction false} ConsumedIsRaw(s: string, n: nat)
    requires n <= |Lex(s)|
    ensures s[..Consumed(s, n)] == Raw(Lex(s)[..n])
    ensures Lex(s[Consumed(s, n)..]) == Lex(s)[n..]
    decreases n
  {
    hide Next, Lex;
    if n == 0 {
      assert s[0..] == s;
    } else {
      LexStep(s);
      var m := Next(s).1;
      var u := s[m..];
      ConsumedIsRaw(u, n - 1);
      var k := Consumed(u, n - 1);
      assert Lex(s)[..n] == [Lex(s)[0]] + Lex(u)[..n - 1];
      assert s[..m + k] == s[..m] + u[..k];
      assert s[m + k..] == u[k..];
      assert Lex(s)[n..] == Lex(u)[n - 1..];
    }
  }

  lemma {:induction false} ConsumedStep(s: string, n: nat)
    requires n < |Lex(s)|
    ensures Consumed(s, n + 1) == Consumed(s, n) + Next(s[Consumed(s, n)..]).1
    ensures Next(s[Consumed(s, n)..]).0 == Lex(s)[n].token
    ensures Lex(s)[n].token.kind != Eof && Consumed(s, n) < Consumed(s, n + 1)
    decreases n
  {
    hide Next, Lex;
    LexStep(s);
    var m := Next(s).1;
    var u := s[m..];
    if n == 0 {
      assert s[0..] == s;
      assert Consumed(u, 0) == 0;
    } else {
      ConsumedStep(u, n - 1);
      assert s[Consumed(s, n)..] == u[Consumed(u, n - 1)..];
      assert Lex(s)[n] == Lex(u)[n - 1];
    }
  }

  /** A token that ends before a `]` is scanned alike when the source ends there. */
  lemma NextCut(s: string, p: nat)
    requires p < |s| && s[p] == ']' && 0 < Next(s).1 <= p && Next(s).0.kind != Eof
    ensures Next(s[..p]) == Next(s)
  {
    hide Scan;
    var b := BlankLength(s);
    BlankLengthCut(s, p);
    assert s[b..][p - b] == ']';
    ScanCut(s[b..], p - b);
    assert s[b..][..p - b] == s[..p][b..];
  }

  lemma NextCloseCut(s: string, p: nat)
    requires Next(s).0.kind == Special && Next(s).0.text == "]" && Next(s).1 == p + 1
    ensures p < |s| && s[p] == ']' && Next(s[..p]) == (EOF_TOKEN, p)
  {
    hide Scan;
    var b := BlankLength(s);
    CloseBracketScan(s[b..]);
    assert s[b..][0] == s[b];
    BlankLengthCut(s, p);
  }

  /**
   A block literal is compiled from the source between its brackets, read again from the
   start.  Cutting a source just before a `]` token leaves exactly the tokens in front of it.
   */
  lemma {:induction false} LexCut(s: string, n: nat, p: nat)
    requires n < |Lex(s)| && Lex(s)[n].token.kind == Special && Lex(s)[n].token.text == "]"
    requires p + 1 == Consumed(s, n + 1)
    ensures p < |s| && s[p] == ']'
    ensures Lex(s[..p]) == Lex(s)[..n]
    decreases n
  {
    hide Next, Lex;
    LexStep(s);
    var m := Next(s).1;
    var u := s[m..];
    if n == 0 {
      assert Consumed(u, 0) == 0;
      NextCloseCut(s, p);
      LexEnd(s[..p]);
    } else {
      assert Lex(s)[n] == Lex(u)[n - 1];
      assert Consumed(s, n + 1) == m + Consumed(u, n);
      ConsumedStep(u, n - 1);
      LexCut(u, n - 1, p - m);
      NextCut(s, p);
      CutSlices(s, m, p);
      LexUnfold(s[..p]);
      var whole, tail := Lex(s), Lex(u);
      assert whole[..n] == [whole[0]] + tail[..n - 1];
    }
  }

  lemma CutSlices(s: string, m: nat, p: nat)
    requires m <= p <= |s|
    ensures s[..p][..m] == s[..m] && s[..p][m..] == s[m..][..p - m]
  {
  }

  lemma LexEnd(s: string)
    requires Next(s).0.kind == Eof
    ensures Lex(s) == []
  {
    hide Next;
  }

  lemma LexUnfold(s: string)
    requires Next(s).0.kind != Eof
    ensures Lex(s) == [Lexeme(Next(s).0, s[..Next(s).1])] + Lex(s[Next(s).1..])
  {
    hide Next;
  }

  lemma CloseBracketScan(s: string)
    requires s != "" && Scan(s).0.kind == Special && Scan(s).0.text == "]"
    ensures s[0] == ']' && Scan(s).1 == 1
  {
  }

  // ----------------------------------------------------------------- text in front

  /** The tokens with a blank before the first. */
  function Spaced(ls: seq<Lexeme>): (r: seq<Lexeme>)
    ensures |r| == |ls|
  {
    if ls == [] then [] else [Lexeme(ls[0].token, " " + ls[0].raw)] + ls[1..]
  }

  /** A blank in front goes to the first token. */
  lemma LexSpaced(s: string)
    ensures Lex(" " + s) == Spaced(Lex(s))
  {
    hide Scan, Lex;
    var t, b := " " + s, BlankLength(s);
    assert t[1..] == s && BlankLength(t) == 1 + b;
    assert t[1 + b..] == s[b..];
    assert Next(t) == (Next(s).0, 1 + Next(s).1);
    if Next(s).0.kind == Eof {
      LexEnd(s);
      LexEnd(t);
    } else {
      var n := Next(s).1;
      LexUnfold(s);
      LexUnfold(t);
      assert t[..1 + n] == " " + s[..n] && t[1 + n..] == s[n..];
    }
  }

  /** A character that is a token by itself in front of a text. */
  lemma LexMark(c: char, s: string)
    requires c == '^' || c == '['
    ensures Lex([c] + s) == [Lexeme(Token(Special, [c], 0), [c])] + Lex(s)
  {
    hide Lex;
    var t := [c] + s;
    assert t[0..] == t && BlankLength(t) == 0 && t[1..] == s && t[..1] == [c];
    assert Next(t) == (Token(Special, [c], 0), 1);
    LexUnfold(t);
  }

  // ----------------------------------------------------------------- the scanner

  lemma SkipComment(source: string, start: nat, index: nat)
    requires start < index <= |source| && source[start] == '"'
    requires forall i :: start < i < index ==> source[i] != '"'
    requires index < |source| ==> source[index] == '"'
    ensures var end := if index < |source| then index + 1 else index;
            BlankLength(source[start..]) == end - start + BlankLength(source[end..])
  {
    var s := source[start..];
    RunLengthUnique(s[1..], NoDoubleQuote, index - start - 1);
    var end := if index < |source| then index + 1 else index;
    assert CommentLength(s) == end - start;
    assert source[end..] == s[end - start..];
  }

  lemma SkipBlank(source: string, start: nat)
    requires start < |source| && IsBlank(source[start])
    ensures BlankLength(source[start..]) == 1 + BlankLength(source[start + 1..])
  {
    assert source[start + 1..] == source[start..][1..];
  }

  lemma SkipNothing(source: string, start: nat)
    requires start <= |source|
    requires start < |source| ==> !IsBlank(source[start]) && source[start] != '"'
    ensures BlankLength(source[start..]) == 0
  {
  }

  method SkipWhitespace(source: string, start: nat) returns (index: nat)
    requires start <= |source|
    ensures index == start + BlankLength(source[start..])
  {
    hide BlankLength;
    index := start;
    while index < |source| && (IsBlank(source[index]) || source[index] == '"')
      invariant start <= index <= |source|
      invariant index + BlankLength(source[index..]) == start + BlankLength(source[start..])
    {
      if IsBlank(source[index]) {
        SkipBlank(source, index);
        index := index + 1;
      } else {
        ghost var from := index;
        index := index + 1;
        while index < |source| && source[index] != '"'
          invariant from + 1 <= index <= |source|
          invariant forall i :: from + 1 <= i < index ==> source[i] != '"'
        {
          index := index + 1;
        }
        SkipComment(source, from, index);
        if index < |source| {
          index := index + 1;
        }
      }
    }
    SkipNothing(source, index);
  }

  method ScanRun(source: string, start: nat, k: Class) returns (index: nat)
    requires start <= |source|
    ensures index == start + RunLength(source[start..], k)
  {
    index := start;
    while index < |source| && InClass(source[index], k)
      invariant start <= index <= |source|
      invariant forall i :: start <= i < index ==> InClass(source[i], k)
    {
      index := index + 1;
    }
    RunLengthUnique(source[start..], k, index - start);
  }

  method ScanDigits(source: string, start: nat) returns (index: nat, value: int)
    requires start <= |source|
    ensures index == start + RunLength(source[start..], Digits)
    ensures value == Decimal(source[start..index])
  {
    index, value := start, 0;
    while index < |source| && IsDigit(source[index])
      invariant start <= index <= |source|
      invariant forall i :: start <= i < index ==> IsDigit(source[i])
      invariant value == Decimal(source[start..index])
    {
      value := value * 10 + (source[index] as int - '0' as int);
      assert source[start..index + 1][..index - start] == source[start..index];
      index := index + 1;
    }
    RunLengthUnique(source[start..], Digits, index - start);
  }

  method ScanString(source: string, start: nat) returns (index: nat, text: string)
    requires start <= |source|
    ensures start <= index && text == StringBody(source[start..]).0 && index - start == StringBody(source[start..]).1
  {
    index, text := start, "";
    while index < |source|
      invariant start <= index <= |source|
      invariant StringBody(source[start..]).0 == text + StringBody(source[index..]).0
      invariant StringBody(source[start..]).1 == index - start + StringBody(source[index..]).1
    {
      ghost var s := source[index..];
      var c := source[index];
      index := index + 1;
      assert source[index..] == s[1..];
      if c == '\'' {
        if index < |source| && source[index] == '\'' {
          assert source[index + 1..] == s[2..];
          index := index + 1;
        } else {
          assert StringBody(s) == ("", 1);
          return;
        }
      }
      text := text + [c];
    }
  }

  method BtScanWord(source: string, from: nat) returns (token: Token, index: nat)
    requires from < |source|
    ensures from <= index && (token, index - from) == ScanWord(source[from..])
  {
    ghost var s := source[from..];
    index := ScanRun(source, from, WordChars);
    assert index < |source| ==> s[index - from] == source[index];
    if index < |source| && source[index] == ':' {
      index := index + 1;
      assert source[from..index] == s[..index - from];
      token := Token(Keyword, Clip(source[from..index], TEXT_MAX), 0);
    } else {
      assert source[from..index] == s[..index - from];
      token := Token(Identifier, Clip(source[from..index], TEXT_MAX), 0);
    }
  }

  method BtScanSymbol(source: string, from: nat) returns (token: Token, index: nat)
    requires from <= |source|
    ensures from <= index && (token, index - from) == ScanSymbol(source[from..])
  {
    ghost var s := source[from..];
    if from < |source| && InClass(source[from], SymbolChars) {
      index := ScanRun(source, from, SymbolChars);
    } else {
      index := ScanRun(source, from, BinaryChars);
    }
    assert source[from..index] == s[..index - from];
    token := Token(Symbol, Clip(source[from..index], TEXT_MAX), 0);
  }

  /** The token that starts right at a character which is neither blank nor a comment. */
  method BtScan(source: string, from: nat) returns (token: Token, index: nat)
    requires from < |source|
    ensures from <= index && (token, index - from) == Scan(source[from..])
  {
    hide ScanWord, ScanSymbol, StringBody, RunLength, Decimal;
    ghost var s := source[from..];
    assert source[from + 1..] == s[1..];
    var c := source[from];
    if IsDigit(c) {
      var value;
      index, value := ScanDigits(source, from);
      assert source[from..index] == s[..index - from];
      token := Token(Integer, Clip(source[from..index], TEXT_MAX), value);
    } else if c == '$' {
      if from + 1 == |source| {
        return EOF_TOKEN, from + 1;
      }
      token, index := Token(Character, [source[from + 1]], source[from + 1] as int), from + 2;
    } else if IsAlpha(c) || c == '_' {
      token, index := BtScanWord(source, from);
    } else if c == '\'' {
      var text;
      index, text := ScanString(source, from + 1);
      token := Token(String, Clip(text, TEXT_MAX), 0);
    } else if c == '#' {
      if from + 1 < |source| && source[from + 1] == '(' {
        return Token(Special, "#(", 0), from + 2;
      }
      token, index := BtScanSymbol(source, from + 1);
    } else if c == ':' && from + 1 < |source| && source[from + 1] == '=' {
      token, index := Token(Special, ":=", 0), from + 2;
    } else {
      token, index := Token(Special, [c], 0), from + 1;
    }
  }

  /** One call of the scanner: skip blanks, then read the longest token at the index. */
  method BtNext(source: string, start: nat) returns (token: Token, index: nat)
    requires start <= |source|
    ensures start <= index <= |source| && (token, index - start) == Next(source[start..])
  {
    hide Scan, BlankLength;
    var from := SkipWhitespace(source, start);
    if from == |source| {
      return EOF_TOKEN, from;
    }
    assert source[start..][from - start..] == source[from..];
    token, index := BtScan(source, from);
  }
}
