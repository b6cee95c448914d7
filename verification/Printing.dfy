/**
 Printed tokens are read back: for every list of tokens, with any blanks and comments between them,
 the scanner gives these tokens, numbers by their decimal numerals and strings by doubled quotes.
 */
module Printing {
  import opened Lexer

  // ----------------------------------------------------------------- text of one token

  function DigitOf(k: nat): char
    requires k < 10
  {
    "0123456789"[k]
  }

  /** A number in decimal. */
  function Numeral(n: nat): string { if n < 10 then [DigitOf(n)] else Numeral(n / 10) + [DigitOf(n % 10)] }

  /** A string's text with its quotes doubled. */
  function Quoted(s: string): string {
    if s == "" then "" else (if s[0] == '\'' then "''" else [s[0]]) + Quoted(s[1..])
  }

  predicate IsName(s: string) {
    s != "" && (IsAlpha(s[0]) || s[0] == '_') && forall i :: 0 <= i < |s| ==>
        IsAlpha(s[i]) || IsDigit(s[i]) || s[i] == '_'
  }

  /** A character that starts no other token. */
  predicate IsMark(c: char) {
    !IsBlank(c) && c != '"' && !IsDigit(c) && !IsAlpha(c) && c !in "_$'#"
  }

  predicate IsSymbolText(s: string) {
    || (forall i :: 0 <= i < |s| ==> IsAlpha(s[i]) || IsDigit(s[i]) || s[i] == '_' || s[i] == ':')
    || (forall i :: 0 <= i < |s| ==> IsBinaryChar(s[i]))
  }

  /** A token that has a text which is read as it. */
  predicate Printable(t: Token) {
    |t.text| <= TEXT_MAX &&
    match t.kind
    case Identifier => IsName(t.text) && t.value == 0
    case Keyword => t.text != "" && IsName(t.text[..|t.text| - 1]) && t.text[|t.text| - 1] == ':' && t.value == 0
    case Integer => t.value >= 0 && t.text == Numeral(t.value)
    case Character => |t.text| == 1 && t.value == t.text[0] as int
    case String => t.value == 0
    case Symbol => IsSymbolText(t.text) && t.value == 0
    case Special => (t.text == "#(" || t.text == ":=" || (|t.text| == 1 && IsMark(t.text[0]))) && t.value == 0
    case _ => false
  }

  function Print(t: Token): string {
    match t.kind
    case Character => "$" + t.text
    case String => "'" + Quoted(t.text) + "'"
    case Symbol => "#" + t.text
    case _ => t.text
  }

  // ----------------------------------------------------------------- blanks and comments

  datatype Piece = Space(c: char) | Remark(text: string)

  predicate IsGap(pieces: seq<Piece>) {
    forall p :: p in pieces ==> if p.Space? then IsBlank(p.c) else '"' !in p.text
  }

  function GapText(pieces: seq<Piece>): string {
    if pieces == [] then ""
    else (if pieces[0].Space? then [pieces[0].c] else "\"" + pieces[0].text + "\"") + GapText(pieces[1..])
  }

  /** Blanks and comments are passed over to the last. */
  lemma {:induction false} GapSkipped(pieces: seq<Piece>, rest: string)
    requires IsGap(pieces)
    ensures BlankLength(GapText(pieces) + rest) == |GapText(pieces)| + BlankLength(rest)
    decreases |pieces|
  {
    if pieces == [] {
      assert "" + rest == rest;
    } else {
      var p, tail := pieces[0], GapText(pieces[1..]) + rest;
      GapSkipped(pieces[1..], rest);
      if p.Space? {
        var s := [p.c] + tail;
        assert GapText(pieces) + rest == s && s[1..] == tail;
      } else {
        RemarkSkipped(p.text, tail);
        assert GapText(pieces) + rest == "\"" + p.text + "\"" + tail;
      }
    }
  }

  lemma RemarkSkipped(text: string, tail: string)
    requires '"' !in text
    ensures BlankLength("\"" + text + "\"" + tail) == |text| + 2 + BlankLength(tail)
  {
    var s := "\"" + text + "\"" + tail;
    assert s[1..] == text + ("\"" + tail);
    RunLengthUnique(s[1..], NoDoubleQuote, |text|);
    assert CommentLength(s) == |text| + 2;
    assert s[|text| + 2..] == tail;
  }

  /** What follows a token: a blank or a comment. */
  predicate Separates(tail: string) { tail != "" && (IsBlank(tail[0]) || tail[0] == '"') }

  lemma GapSeparates(pieces: seq<Piece>, rest: string)
    requires IsGap(pieces) && pieces != []
    ensures Separates(GapText(pieces) + rest)
  {
  }

  // ----------------------------------------------------------------- one token

  lemma {:induction false} NumeralDigits(n: nat)
    ensures Numeral(n) != "" && forall i :: 0 <= i < |Numeral(n)| ==> IsDigit(Numeral(n)[i])
  {
    if n >= 10 {
      NumeralDigits(n / 10);
    }
  }

  lemma {:induction false} NumeralRead(n: nat)
    ensures Decimal(Numeral(n)) == n
  {
    var s := Numeral(n);
    NumeralDigits(n);
    if n >= 10 {
      NumeralRead(n / 10);
      assert s[..|s| - 1] == Numeral(n / 10) && s[|s| - 1] == DigitOf(n % 10);
    } else {
      assert s[..|s| - 1] == "";
    }
  }

  lemma {:induction false} QuotedRead(text: string, tail: string)
    requires tail != "" && tail[0] != '\''
    ensures StringBody(Quoted(text) + "'" + tail) == (text, |Quoted(text)| + 1)
    decreases |text|
  {
    var s := Quoted(text) + "'" + tail;
    if text == "" {
      assert s == "'" + tail && s[1..] == tail;
    } else {
      QuotedRead(text[1..], tail);
      var rest := Quoted(text[1..]) + "'" + tail;
      assert text == [text[0]] + text[1..];
      if text[0] == '\'' {
        assert s == "''" + rest && s[2..] == rest;
      } else {
        assert s == [text[0]] + rest && s[1..] == rest;
      }
    }
  }

  lemma NumberRead(t: Token, tail: string)
    requires Printable(t) && t.kind == Integer && Separates(tail)
    ensures Scan(Print(t) + tail) == (t, |Print(t)|)
  {
    hide Numeral, Decimal;
    NumeralDigits(t.value);
    NumeralRead(t.value);
    var s := Print(t) + tail;
    RunLengthUnique(s, Digits, |t.text|);
    assert s[..|t.text|] == t.text;
  }

  lemma WordRead(t: Token, tail: string)
    requires Printable(t) && (t.kind == Identifier || t.kind == Keyword) && Separates(tail)
    ensures Scan(Print(t) + tail) == (t, |Print(t)|)
  {
    var s, n := Print(t) + tail, if t.kind == Keyword then |t.text| - 1 else |t.text|;
    assert forall i :: 0 <= i < n ==> s[i] == t.text[..n][i];
    RunLengthUnique(s, WordChars, n);
    assert s[..|t.text|] == t.text;
  }

  lemma BinaryApart(c: char)
    ensures IsBinaryChar(c) ==> !IsAlpha(c) && !IsDigit(c) && c != '_' && c != ':'
    ensures IsBlank(c) || c == '"' ==> !IsBinaryChar(c) && !IsAlpha(c) && !IsDigit(c) && c != '_' && c != ':'
  {
  }

  lemma SymbolRun(text: string, tail: string)
    requires IsSymbolText(text) && Separates(tail)
    ensures var u := text + tail;
            u != "" && RunLength(u, if InClass(u[0], SymbolChars) then SymbolChars else BinaryChars) == |text|
  {
    var u := text + tail;
    hide IsBinaryChar, RunLength, IsAlpha, IsDigit;
    BinaryApart(tail[0]);
    BinaryApart(u[0]);
    RunLengthUnique(u, if InClass(u[0], SymbolChars) then SymbolChars else BinaryChars, |text|);
  }

  /** What is scanned after a `#`. */
  lemma ScanHash(s: string, u: string)
    requires u != "" && u[0] != '(' && s == ['#'] + u
    ensures Scan(s) == (ScanSymbol(u).0, 1 + ScanSymbol(u).1)
  {
    hide ScanSymbol, StringBody, ScanInteger, ScanWord, IsAlpha, IsDigit;
    assert s[0] == '#' && s[1..] == u && s[1] == u[0];
    assert !IsAlpha('#') && !IsDigit('#') by { HashApart(); }
  }

  lemma HashApart()
    ensures !IsAlpha('#') && !IsDigit('#') && !IsAlpha('\'') && !IsDigit('\'')
  {
  }

  /** What is scanned after a quote. */
  lemma ScanQuote(s: string, u: string)
    requires s == ['\''] + u
    ensures Scan(s) == (Token(String, Clip(StringBody(u).0, TEXT_MAX), 0), 1 + StringBody(u).1)
  {
    hide ScanSymbol, StringBody, ScanInteger, ScanWord, IsAlpha, IsDigit, Clip;
    assert s[0] == '\'' && s[1..] == u;
    assert !IsAlpha('\'') && !IsDigit('\'') by { HashApart(); }
  }

  lemma SymbolRead(t: Token, tail: string)
    requires Printable(t) && t.kind == Symbol && Separates(tail)
    ensures Scan(Print(t) + tail) == (t, |Print(t)|)
  {
    var u := t.text + tail;
    assert IsSymbolText(t.text) && t.value == 0 && |t.text| <= TEXT_MAX;
    assert Print(t) + tail == "#" + u && |Print(t)| == 1 + |t.text|;
    hide Print, Printable, Scan, IsSymbolText, Separates, IsBinaryChar, RunLength;
    SymbolRun(t.text, tail);
    NoParenthesis(t.text, tail);
    ScanHash("#" + u, u);
    assert u[..|t.text|] == t.text;
  }

  lemma NoParenthesis(text: string, tail: string)
    requires IsSymbolText(text) && Separates(tail)
    ensures (text + tail)[0] != '('
  {
  }

  lemma CharacterRead(t: Token, tail: string)
    requires Printable(t) && t.kind == Character
    ensures Scan(Print(t) + tail) == (t, |Print(t)|)
  {
    var s := Print(t) + tail;
    assert s[0] == '$' && s[1] == t.text[0] && t.text == [t.text[0]];
    assert t == Token(Character, [s[1]], s[1] as int);
  }

  lemma StringRead(t: Token, tail: string)
    requires Printable(t) && t.kind == String && Separates(tail)
    ensures Scan(Print(t) + tail) == (t, |Print(t)|)
  {
    var u := Quoted(t.text) + "'" + tail;
    assert t.value == 0 && |t.text| <= TEXT_MAX && tail[0] != '\'';
    assert Print(t) + tail == "'" + u && |Print(t)| == |Quoted(t.text)| + 2;
    hide Print, Printable, Scan, Quoted, StringBody;
    QuotedRead(t.text, tail);
    ScanQuote("'" + u, u);
  }

  lemma SpecialRead(t: Token, tail: string)
    requires Printable(t) && t.kind == Special && Separates(tail)
    ensures Scan(Print(t) + tail) == (t, |Print(t)|)
  {
    hide ScanSymbol, StringBody, ScanInteger, ScanWord;
    var s := Print(t) + tail;
    if |t.text| == 1 {
      assert t.text == [t.text[0]] && s[0] == t.text[0] && s[1] == tail[0];
    } else {
      assert s[0] == t.text[0] && s[1] == t.text[1];
    }
  }

  /** The text of a token, with a blank or a comment after it, is read as the token. */
  lemma TokenRead(t: Token, tail: string)
    requires Printable(t) && Separates(tail)
    ensures Print(t) != "" && BlankLength(Print(t) + tail) == 0
    ensures Scan(Print(t) + tail) == (t, |Print(t)|)
  {
    hide Numeral, Quoted, StringBody, RunLength;
    match t.kind
    case Identifier => WordRead(t, tail);
    case Keyword => WordRead(t, tail);
    case Integer =>
      NumeralDigits(t.value);
      NumberRead(t, tail);
    case Character => CharacterRead(t, tail);
    case String => StringRead(t, tail);
    case Symbol => SymbolRead(t, tail);
    case Special => SpecialRead(t, tail);
  }

  // ----------------------------------------------------------------- many tokens

  /** A token and what is between it and the next. */
  datatype Printed = Printed(token: Token, gap: seq<Piece>)

  function PrintAll(items: seq<Printed>): string {
    if items == [] then "" else Print(items[0].token) + GapText(items[0].gap) + PrintAll(items[1..])
  }

  function Tokens(ls: seq<Lexeme>): (r: seq<Token>)
    ensures |r| == |ls|
  {
    if ls == [] then [] else [ls[0].token] + Tokens(ls[1..])
  }

  predicate AllPrintable(items: seq<Printed>) {
    forall i :: 0 <= i < |items| ==> Printable(items[i].token) && IsGap(items[i].gap) && items[i].gap != []
  }

  /** Round trip: tokens, printed with anything between them, are read as these tokens and no others. */
  lemma {:induction false} PrintLex(lead: seq<Piece>, items: seq<Printed>)
    requires IsGap(lead) && AllPrintable(items)
    ensures var ls := Lex(GapText(lead) + PrintAll(items));
            |ls| == |items| && forall i :: 0 <= i < |items| ==> ls[i].token == items[i].token
    decreases |items|
  {
    hide Scan, BlankLength, Print, GapText, Printable, Lex;
    var s := GapText(lead) + PrintAll(items);
    if items == [] {
      NothingPrinted(lead);
    } else {
      var t, gap, rest := items[0].token, items[0].gap, PrintAll(items[1..]);
      var tail := GapText(gap) + rest;
      GapSeparates(gap, rest);
      TokenRead(t, tail);
      GapSkipped(lead, Print(t) + tail);
      assert PrintAll(items) == Print(t) + tail;
      var b := |GapText(lead)|;
      assert s[b..] == Print(t) + tail;
      assert Next(s) == (t, b + |Print(t)|);
      assert t.kind != Eof by { NoEnd(t); }
      LexUnfold(s);
      assert s[b + |Print(t)|..] == tail;
      PrintLex(gap, items[1..]);
    }
  }

  lemma NoEnd(t: Token)
    requires Printable(t)
    ensures t.kind != Eof
  {
  }

  lemma NothingPrinted(lead: seq<Piece>)
    requires IsGap(lead)
    ensures Lex(GapText(lead) + PrintAll([])) == []
  {
    var s := GapText(lead) + "";
    assert s == GapText(lead) + PrintAll([]);
    GapSkipped(lead, "");
    hide GapText, Lex;
    assert BlankLength(s) == |s|;
    LexEnd(s);
  }
}
