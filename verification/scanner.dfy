/**
 * The line-based, pull-style tokenizer of Scanner.py.
 *
 * The open file becomes the sequence of lines `readline` would return, and the
 * scanner object becomes an immutable `State`; `get_next_token` is the pure step
 * function `GetNextToken`. The two `print` + `exit()` paths, the `IndexError` of a
 * lookahead past the end of the input and the `ValueError` of reading a closed
 * file all become `ScanError` results.
 */
module Scanner {
  import opened Wrappers
  import Decimal

  /** `dict(zip(keys, values))` for lists of equal length: a repeated key keeps its last value. */
  function DictZip<K(!new), V>(keys: seq<K>, values: seq<V>): (m: map<K, V>)
    requires |keys| == |values|
    ensures forall x :: x in m <==> x in keys
    ensures forall k :: 0 <= k < |keys| && LastOccurrence(keys, k) ==> m[keys[k]] == values[k]
  {
    if |keys| == 0 then map[]
    else
      var n := |keys| - 1;
      var m := DictZip(keys[..n], values[..n]);
      var r := m[keys[n] := values[n]];
      assert forall x :: x in keys <==> x in keys[..n] || x == keys[n] by {
        assert keys == keys[..n] + [keys[n]];
      }
      assert forall k :: 0 <= k < |keys| && LastOccurrence(keys, k) ==> r[keys[k]] == values[k] by {
        forall k | 0 <= k < |keys| && LastOccurrence(keys, k)
          ensures r[keys[k]] == values[k]
        {
          if k < n {
            assert keys[k] != keys[n];
            assert keys[..n][k] == keys[k];
            assert LastOccurrence(keys[..n], k);
          }
        }
      }
      r
  }

  /** No later position of `s` holds the same element as position `k`. */
  predicate LastOccurrence<T(==)>(s: seq<T>, k: int)
    requires 0 <= k < |s|
  {
    forall l :: k < l < |s| ==> s[l] != s[k]
  }

  predicate Distinct<T(==)>(s: seq<T>) {
    forall k, l :: 0 <= k < l < |s| ==> s[k] != s[l]
  }

  /** `[0, 1, ..., n - 1]`, Python's `range(n)`. */
  function Range(n: nat): (r: seq<nat>)
    ensures |r| == n
    ensures forall k :: 0 <= k < n ==> r[k] == k
  {
    if n == 0 then [] else Range(n - 1) + [n - 1]
  }

  /** The source's `enum(*sequential)`: each listed name is bound to its position. */
  function Enum<T(!new)>(names: seq<T>): (m: map<T, nat>)
    ensures forall x :: x in m <==> x in names
    ensures Distinct(names) ==> forall k :: 0 <= k < |names| ==> m[names[k]] == k
  {
    DictZip(names, Range(|names|))
  }

  /** The 34 kinds of token, in the order the source lists them. */
  datatype TokenType =
    | TId | TNum
    | TInt | TVoid | TString | TIf | TElse | TWhile | TReturn | TWrite | TWriteln | TRead
    | TSemicolon | TComma | TLBracket | TRBracket | TLBrace | TRBrace | TLParen | TRParen
    | TLess | TLeq | TEq | TNeq | TGeq | TGreater | TAssign
    | TPlus | TMinus | TMult | TDiv | TMod | TAnd
    | TEof

  /** The kinds in the order the source lists their names. */
  const TokenTypes: seq<TokenType> := [
    TId, TNum, TInt, TVoid, TString, TIf, TElse, TWhile, TReturn, TWrite, TWriteln, TRead,
    TSemicolon, TComma, TLBracket, TRBracket, TLBrace, TRBrace, TLParen, TRParen,
    TLess, TLeq, TEq, TNeq, TGeq, TGreater, TAssign, TPlus, TMinus, TMult, TDiv, TMod, TAnd, TEof]

  /** The integer a kind stands for: its position in the source's list. */
  function Ordinal(t: TokenType): nat {
    match t
    case TId => 0 case TNum => 1 case TInt => 2 case TVoid => 3 case TString => 4
    case TIf => 5 case TElse => 6 case TWhile => 7 case TReturn => 8 case TWrite => 9
    case TWriteln => 10 case TRead => 11 case TSemicolon => 12 case TComma => 13
    case TLBracket => 14 case TRBracket => 15 case TLBrace => 16 case TRBrace => 17
    case TLParen => 18 case TRParen => 19 case TLess => 20 case TLeq => 21 case TEq => 22
    case TNeq => 23 case TGeq => 24 case TGreater => 25 case TAssign => 26 case TPlus => 27
    case TMinus => 28 case TMult => 29 case TDiv => 30 case TMod => 31 case TAnd => 32
    case TEof => 33
  }

  /** `enum` gives the 34 kinds the values 0..33 in list order, so no two kinds share a value. */
  lemma TokenTypeValues()
    ensures |TokenTypes| == 34 && Distinct(TokenTypes)
    ensures forall t :: t in TokenTypes && Enum(TokenTypes)[t] == Ordinal(t) < 34
    ensures forall t, u :: Ordinal(t) == Ordinal(u) ==> t == u
  {
    ListedInOrder();
    forall t
      ensures t in TokenTypes && Enum(TokenTypes)[t] == Ordinal(t) < 34
    {
      assert TokenTypes[Ordinal(t)] == t;
    }
  }

  /** Each kind sits at the position its value names. */
  lemma ListedInOrder()
    ensures |TokenTypes| == 34
    ensures forall t :: TokenTypes[Ordinal(t)] == t
    ensures forall k :: 0 <= k < |TokenTypes| ==> Ordinal(TokenTypes[k]) == k
    ensures Distinct(TokenTypes)
  {
    OrdinalsIndex();
    IndicesOrdinal();
    forall k, l | 0 <= k < l < |TokenTypes|
      ensures TokenTypes[k] != TokenTypes[l]
    {
      assert Ordinal(TokenTypes[k]) == k && Ordinal(TokenTypes[l]) == l;
    }
  }

  lemma OrdinalsIndex()
    ensures |TokenTypes| == 34 && forall t :: TokenTypes[Ordinal(t)] == t
  {
    forall t
      ensures TokenTypes[Ordinal(t)] == t
    {
    }
  }

  lemma IndicesOrdinal()
    ensures |TokenTypes| == 34 && forall k :: 0 <= k < |TokenTypes| ==> Ordinal(TokenTypes[k]) == k
  {
    IndicesOrdinalA();
    IndicesOrdinalB();
    IndicesOrdinalC();
    IndicesOrdinalD();
  }

  // The positions are checked a quarter of the list at a time to keep each proof small.

  lemma IndicesOrdinalA()
    ensures forall k :: 0 <= k < 9 ==> Ordinal(TokenTypes[k]) == k
  {
    forall k | 0 <= k < 9
      ensures Ordinal(TokenTypes[k]) == k
    {
      assert k in {0, 1, 2, 3, 4, 5, 6, 7, 8};
    }
  }

  lemma IndicesOrdinalB()
    ensures forall k :: 9 <= k < 18 ==> Ordinal(TokenTypes[k]) == k
  {
    forall k | 9 <= k < 18
      ensures Ordinal(TokenTypes[k]) == k
    {
      assert k in {9, 10, 11, 12, 13, 14, 15, 16, 17};
    }
  }

  lemma IndicesOrdinalC()
    ensures forall k :: 18 <= k < 26 ==> Ordinal(TokenTypes[k]) == k
  {
    forall k | 18 <= k < 26
      ensures Ordinal(TokenTypes[k]) == k
    {
      assert k in {18, 19, 20, 21, 22, 23, 24, 25};
    }
  }

  lemma IndicesOrdinalD()
    ensures forall k :: 26 <= k < 34 ==> Ordinal(TokenTypes[k]) == k
  {
    forall k | 26 <= k < 34
      ensures Ordinal(TokenTypes[k]) == k
    {
      assert k in {26, 27, 28, 29, 30, 31, 32, 33};
    }
  }

  /** A token: its kind, the matched text and the line it was found on. */
  datatype Token = Token(kind: TokenType, value: string, lineNumber: nat)

  /** `Token.__str__`. */
  function TokenToString(t: Token): string {
    "Token " + Decimal.NatToString(Ordinal(t.kind)) + ", string " + t.value
      + ", line number " + Decimal.NatToString(t.lineNumber)
  }

  const Keywords: seq<string> :=
    ["int", "void", "string", "if", "else", "while", "return", "write", "writeln", "read"]

  const KeywordTokens: seq<TokenType> :=
    [TInt, TVoid, TString, TIf, TElse, TWhile, TReturn, TWrite, TWriteln, TRead]

  /** The scanner's `keyword_hash`. */
  function KeywordHash(): map<string, TokenType> {
    DictZip(Keywords, KeywordTokens)
  }

  /** The ten keywords are different words. */
  lemma KeywordsDistinct()
    ensures |Keywords| == 10 && Distinct(Keywords)
  {
    forall k, l | 0 <= k < l < |Keywords|
      ensures Keywords[k] != Keywords[l]
    {
      // the ten words differ in length, first letter or second letter
      assert |Keywords[k]| != |Keywords[l]| || Keywords[k][0] != Keywords[l][0] || Keywords[k][1] != Keywords[l][1];
    }
  }

  /** Keyword kinds are the consecutive values 2..11, in table order. */
  lemma KeywordTokenOrdinals()
    ensures |KeywordTokens| == 10
    ensures forall k :: 0 <= k < |KeywordTokens| ==> Ordinal(KeywordTokens[k]) == k + 2
  {
  }

  /** The table holds exactly the ten keywords, each paired with its own kind. */
  lemma KeywordTable()
    ensures forall w :: w in KeywordHash() <==> w in Keywords
    ensures forall k :: 0 <= k < |Keywords| ==> KeywordHash()[Keywords[k]] == KeywordTokens[k]
  {
    KeywordsDistinct();
    assert forall k :: 0 <= k < |Keywords| ==> LastOccurrence(Keywords, k);
  }

  /** No two keywords share a kind, and no keyword scans as an identifier. */
  lemma KeywordTableInjective()
    ensures forall v, w :: v in KeywordHash() && w in KeywordHash() && v != w ==> KeywordHash()[v] != KeywordHash()[w]
    ensures forall w :: w in KeywordHash() ==> KeywordHash()[w] != TId
  {
    var h := KeywordHash();
    forall w | w in h
      ensures h[w] != TId
    {
      var k := KeywordIndex(w);
    }
    forall v, w | v in h && w in h && v != w
      ensures h[v] != h[w]
    {
      var k := KeywordIndex(v);
      var l := KeywordIndex(w);
    }
  }

  /** Where a word of the table stands in the keyword list, and the value that position gives it. */
  lemma KeywordIndex(w: string) returns (k: nat)
    requires w in KeywordHash()
    ensures k < |Keywords| && Keywords[k] == w && Ordinal(KeywordHash()[w]) == k + 2
  {
    KeywordTable();
    KeywordTokenOrdinals();
    k :| 0 <= k < |Keywords| && Keywords[k] == w;
  }

  // Python 2 character classes on byte strings (ASCII).

  predicate IsSpace(c: char) {
    c == ' ' || c == '\t' || c == '\n' || c == '\r' || c == '\U{000B}' || c == '\U{000C}'
  }

  predicate IsDigit(c: char) {
    Decimal.IsDigit(c)
  }

  predicate IsAlpha(c: char) {
    ('a' <= c <= 'z') || ('A' <= c <= 'Z')
  }

  predicate IsAlnum(c: char) {
    IsAlpha(c) || IsDigit(c)
  }

  /** One-character tokens that need no lookahead. */
  const SingleCharTokens: map<char, TokenType> := map[
    '+' := TPlus, '-' := TMinus, ';' := TSemicolon, ',' := TComma,
    '[' := TLBracket, ']' := TRBracket, '{' := TLBrace, '}' := TRBrace,
    '(' := TLParen, ')' := TRParen, '*' := TMult, '%' := TMod, '&' := TAnd]

  /** Characters that become a two-character operator when `=` follows them. */
  const TwoCharTokens: map<char, TokenType> := map['<' := TLeq, '>' := TGeq, '=' := TEq, '!' := TNeq]

  /** The one-character fallback of those characters; `!` has none. */
  const OneCharFallbacks: map<char, TokenType> := map['<' := TLess, '>' := TGreater, '=' := TAssign]

  /** The scanner object: rest of the current line, unread lines, line counter, last token, file closed. */
  datatype State = State(
    currentLine: string,
    input: seq<string>,
    lineNumber: nat,
    nextToken: Option<Token>,
    closed: bool)

  datatype ScanError =
    | UnclosedComment(line: nat, index: nat)
    | UnidentifiableToken(line: nat, index: nat)
    | LookaheadPastEnd(line: nat, index: nat)
    | ReadFromClosedFile

  /** The message the source prints before exiting, for the two errors it reports itself. */
  function ErrorMessage(e: ScanError): string {
    match e
    case UnclosedComment(line, index) =>
      "ERROR: Comment block beginning at line " + Decimal.NatToString(line) + ", index "
        + Decimal.NatToString(index) + " is never closed."
    case UnidentifiableToken(line, index) =>
      "ERROR: Unidentifiable Token at line " + Decimal.NatToString(line) + ", index "
        + Decimal.NatToString(index) + "."
    case LookaheadPastEnd(_, _) => "IndexError: string index out of range"
    case ReadFromClosedFile => "ValueError: I/O operation on closed file"
  }

  /** `readline()`: the next line, or "" once the input is exhausted. */
  function ReadLine(input: seq<string>): string {
    if |input| == 0 then "" else input[0]
  }

  function Unread(input: seq<string>): (rest: seq<string>)
    ensures |input| > 0 ==> |rest| < |input|
  {
    if |input| == 0 then [] else input[1..]
  }

  /** `Scanner.__init__`: the first line is read eagerly and counted as line 1. */
  function Init(lines: seq<string>): (s: State)
    ensures s.lineNumber == 1 && s.nextToken == None && !s.closed
    ensures s.currentLine + Concat(s.input) == Concat(lines)
  {
    State(ReadLine(lines), Unread(lines), 1, None, false)
  }

  function Concat(lines: seq<string>): string {
    if |lines| == 0 then "" else lines[0] + Concat(lines[1..])
  }

  /** End of the run of characters satisfying `p` that starts at `j`: the maximal munch. */
  function RunEnd(line: string, j: nat, p: char -> bool): (k: nat)
    requires j <= |line|
    ensures j <= k <= |line|
    ensures forall m :: j <= m < k ==> p(line[m])
    ensures k == |line| || !p(line[k])
    decreases |line| - j
  {
    if j < |line| && p(line[j]) then RunEnd(line, j + 1, p) else j
  }

  /** A run end is determined by its defining properties. */
  lemma RunEndUnique(line: string, j: nat, p: char -> bool, k: nat)
    requires j <= k <= |line|
    requires forall m :: j <= m < k ==> p(line[m])
    requires k == |line| || !p(line[k])
    ensures RunEnd(line, j, p) == k
  {
  }

  /** `i` is the first non-whitespace position of `line`, or `|line|` when there is none. */
  predicate FirstNonSpace(line: string, i: nat) {
    i <= |line| && (forall m :: 0 <= m < i ==> IsSpace(line[m])) && (i == |line| || !IsSpace(line[i]))
  }

  /** A comment terminator (star, slash) starts at position `m`. */
  predicate IsCloseAt(line: string, m: int) {
    0 <= m && m + 1 < |line| && line[m] == '*' && line[m + 1] == '/'
  }

  /** No comment terminator starts in positions `from .. to - 1`. */
  predicate NoCloseIn(line: string, from: int, to: int) {
    forall m :: from <= m < to ==> !IsCloseAt(line, m)
  }

  /** Where the comment-skipping loop stands: line, index into it, unread lines, running line counter. */
  datatype Cursor = Cursor(line: string, j: nat, input: seq<string>, lineNumber: nat)

  datatype CommentFailure = NeverClosed | InputClosed

  /**
   * `e` is where the comment-skipping loop started at `c` stops: the first comment
   * terminator at or after the cursor, `k` whole lines further on, with the line
   * counter raised by `k`.
   */
  predicate SkippedTo(c: Cursor, e: Cursor)
    requires c.j <= |c.line|
  {
    var k := |c.input| - |e.input|;
    && 0 <= k <= |c.input| && e.input == c.input[k..]
    && e.lineNumber == c.lineNumber + k
    && IsCloseAt(e.line, e.j)
    && (k == 0 ==> e.line == c.line && c.j <= e.j && NoCloseIn(c.line, c.j, e.j))
    && (k > 0 ==>
          && e.line == c.input[k - 1] && NoCloseIn(e.line, 0, e.j)
          && NoCloseIn(c.line, c.j, |c.line|)
          && forall m :: 0 <= m < k - 1 ==> c.input[m] != "" && NoCloseIn(c.input[m], 0, |c.input[m]|))
  }

  /**
   * The inner loop of the comment branch: advance until a terminator starts at the
   * cursor, reading (and counting) further lines when the current one runs out.
   */
  function SkipComment(c: Cursor, closed: bool): (r: Result<Cursor, CommentFailure>)
    requires c.j <= |c.line|
    ensures r.Success? ==> SkippedTo(c, r.value)
    ensures r.Failure? ==> NoCloseIn(c.line, c.j, |c.line|)
    ensures r == Failure(InputClosed) ==> closed
    decreases |c.input|, |c.line| - c.j
  {
    if IsCloseAt(c.line, c.j) then Success(c)
    else if c.j == |c.line| then
      if closed then Failure(InputClosed)
      else if ReadLine(c.input) == "" then Failure(NeverClosed)
      else
        var next := Cursor(ReadLine(c.input), 0, Unread(c.input), c.lineNumber + 1);
        var r := SkipComment(next, closed);
        if r.Success? then
          SkipCommentNextLine(c, next, r.value);
          r
        else r
    else
      var r := SkipComment(c.(j := c.j + 1), closed);
      if r.Success? then
        SkipCommentNextChar(c, r.value);
        r
      else
        NoCloseStep(c.line, c.j, |c.line|);
        r
  }

  lemma NoCloseStep(line: string, from: int, to: int)
    requires from < to && !IsCloseAt(line, from) && NoCloseIn(line, from + 1, to)
    ensures NoCloseIn(line, from, to)
  {
  }

  /** The loop's result after moving one character on is its result before the move. */
  lemma SkipCommentNextChar(c: Cursor, e: Cursor)
    requires c.j < |c.line| && !IsCloseAt(c.line, c.j)
    requires SkippedTo(c.(j := c.j + 1), e)
    ensures SkippedTo(c, e)
  {
    var k := |c.input| - |e.input|;
    if k == 0 {
      NoCloseStep(c.line, c.j, e.j);
    } else {
      NoCloseStep(c.line, c.j, |c.line|);
    }
  }

  /** A terminator at the cursor is the first one: the loop stops where it stands. */
  lemma SkippedToHere(c: Cursor, e: Cursor)
    requires c.j <= |c.line| && IsCloseAt(c.line, c.j) && SkippedTo(c, e)
    ensures e == c
  {
    var k := |c.input| - |e.input|;
    assert k == 0;
    assert e.input == c.input[0..] == c.input;
    assert e.j == c.j;
  }

  /** Conversely, a terminator found after the cursor is still ahead once the cursor moves past a non-terminator. */
  lemma SkippedToNextChar(c: Cursor, e: Cursor)
    requires c.j < |c.line| && !IsCloseAt(c.line, c.j)
    requires SkippedTo(c, e)
    ensures SkippedTo(c.(j := c.j + 1), e)
  {
    var k := |c.input| - |e.input|;
    if k == 0 {
      assert c.j != e.j;
    }
  }

  /** Conversely, a terminator found on a later line is found from the start of the next line. */
  lemma SkippedToNextLine(c: Cursor, e: Cursor)
    requires c.j == |c.line| && SkippedTo(c, e)
    ensures |c.input| > 0 && ReadLine(c.input) != ""
    ensures SkippedTo(Cursor(ReadLine(c.input), 0, Unread(c.input), c.lineNumber + 1), e)
  {
    var k := |c.input| - |e.input|;
    assert k > 0;
    var next := Cursor(ReadLine(c.input), 0, Unread(c.input), c.lineNumber + 1);
    assert next.input == c.input[1..];
    assert c.input[1..][k - 1..] == c.input[k..];
    if k == 1 {
      assert e.line == next.line;
    } else {
      assert c.input[0] != "";
      forall m | 0 <= m < k - 2
        ensures next.input[m] != "" && NoCloseIn(next.input[m], 0, |next.input[m]|)
      {
        assert next.input[m] == c.input[m + 1];
      }
      assert e.line == next.input[k - 2];
    }
  }

  /** The loop's result after reading one more line is its result for the line before. */
  lemma SkipCommentNextLine(c: Cursor, next: Cursor, e: Cursor)
    requires c.j == |c.line| && |c.input| > 0 && c.input[0] != ""
    requires next == Cursor(c.input[0], 0, c.input[1..], c.lineNumber + 1)
    requires SkippedTo(next, e)
    ensures SkippedTo(c, e)
  {
    var k' := |next.input| - |e.input|;
    assert c.input[1..][k'..] == c.input[k' + 1..];
    if k' > 0 {
      forall m | 0 <= m < k'
        ensures c.input[m] != "" && NoCloseIn(c.input[m], 0, |c.input[m]|)
      {
        if m > 0 {
          assert c.input[m] == next.input[m - 1];
        }
      }
    }
  }

  /** The state after emitting a token of `kind` with text `value` and leaving `rest` unread on the line. */
  function Emit(s: State, kind: TokenType, value: string, rest: string): State {
    s.(nextToken := Some(Token(kind, value, s.lineNumber)), currentLine := rest)
  }

  /**
   * `Scanner.get_next_token`: whitespace-only lines are dropped (each one read is
   * counted) until a token starts or the input ends.
   */
  function GetNextToken(s: State): (r: Result<State, ScanError>)
    ensures r.Success? ==> r.value.lineNumber >= s.lineNumber
    ensures r.Success? ==> |r.value.input| <= |s.input|
    decreases |s.input|, |s.currentLine|, 2
  {
    var line := s.currentLine;
    var i := RunEnd(line, 0, IsSpace);
    if i == |line| then
      if s.closed then Failure(ReadFromClosedFile)
      else if ReadLine(s.input) == "" then
        Success(s.(currentLine := "", input := Unread(s.input), nextToken := Some(Token(TEof, "", s.lineNumber)), closed := true))
      else
        GetNextToken(s.(currentLine := ReadLine(s.input), input := Unread(s.input), lineNumber := s.lineNumber + 1))
    else ScanToken(s, i)
  }

  /** The dispatch of `get_next_token` on the character at `i`, the first that is not whitespace. */
  function ScanToken(s: State, i: nat): (r: Result<State, ScanError>)
    requires i < |s.currentLine|
    ensures r.Success? ==> r.value.lineNumber >= s.lineNumber
    ensures r.Success? ==> |r.value.input| <= |s.input|
    decreases |s.input|, |s.currentLine|, 1
  {
    var line := s.currentLine;
    var c := line[i];
    if IsDigit(c) then
      var j := RunEnd(line, i + 1, IsDigit);
      Success(Emit(s, TNum, line[i..j], line[j..]))
    else if IsAlpha(c) then
      var j := RunEnd(line, i + 1, IsAlnum);
      var word := line[i..j];
      Success(Emit(s, if word in Keywords then KeywordHash()[word] else TId, word, line[j..]))
    else if c in SingleCharTokens then
      Success(Emit(s, SingleCharTokens[c], [c], line[i + 1..]))
    else if c in TwoCharTokens then
      if i + 1 == |line| then Failure(LookaheadPastEnd(s.lineNumber, i + 1))
      else if line[i + 1] == '=' then Success(Emit(s, TwoCharTokens[c], [c, '='], line[i + 2..]))
      else if c in OneCharFallbacks then Success(Emit(s, OneCharFallbacks[c], [c], line[i + 1..]))
      else Success(s)
    else if c == '/' then
      if i + 1 == |line| then Failure(LookaheadPastEnd(s.lineNumber, i + 1))
      else if line[i + 1] == '*' then ScanComment(s, i)
      else Success(Emit(s, TDiv, "/", line[i + 1..]))
    else Failure(UnidentifiableToken(s.lineNumber, i))
  }

  /** The comment branch: skip to the terminator and scan on from just after it. */
  function ScanComment(s: State, i: nat): (r: Result<State, ScanError>)
    requires i + 1 < |s.currentLine|
    ensures r.Success? ==> r.value.lineNumber >= s.lineNumber
    ensures r.Success? ==> |r.value.input| <= |s.input|
    decreases |s.input|, |s.currentLine|, 0
  {
    match SkipComment(Cursor(s.currentLine, i + 2, s.input, s.lineNumber), s.closed)
    case Failure(NeverClosed) => Failure(UnclosedComment(s.lineNumber, i))
    case Failure(InputClosed) => Failure(ReadFromClosedFile)
    case Success(end) =>
      GetNextToken(s.(currentLine := end.line[end.j + 2..], input := end.input, lineNumber := end.lineNumber))
  }

  // Properties of one scanning step.

  /** When a token starts at `i`, the step is the dispatch on the character there. */
  lemma StartsAt(s: State, i: nat)
    requires FirstNonSpace(s.currentLine, i) && i < |s.currentLine|
    ensures GetNextToken(s) == ScanToken(s, i)
  {
    RunEndUnique(s.currentLine, 0, IsSpace, i);
  }

  /** A line holding only whitespace is dropped: the next line is fetched and counted. */
  lemma BlankLineAdvances(s: State)
    requires FirstNonSpace(s.currentLine, |s.currentLine|)
    requires !s.closed && ReadLine(s.input) != ""
    ensures GetNextToken(s)
         == GetNextToken(s.(currentLine := s.input[0], input := s.input[1..], lineNumber := s.lineNumber + 1))
  {
    RunEndUnique(s.currentLine, 0, IsSpace, |s.currentLine|);
  }

  /** At the end of the input the step yields an end-of-file token with empty text on the current line, and closes the file. */
  lemma EndOfInput(s: State)
    requires FirstNonSpace(s.currentLine, |s.currentLine|)
    requires !s.closed && ReadLine(s.input) == ""
    ensures GetNextToken(s).Success?
    ensures var t := GetNextToken(s).value;
      t.nextToken == Some(Token(TEof, "", s.lineNumber)) && t.closed && t.currentLine == ""
      && t.lineNumber == s.lineNumber
  {
    RunEndUnique(s.currentLine, 0, IsSpace, |s.currentLine|);
  }

  /** Once the file is closed, a step that needs another line fails instead of returning a token. */
  lemma ClosedInputFails(s: State)
    requires FirstNonSpace(s.currentLine, |s.currentLine|)
    requires s.closed
    ensures GetNextToken(s) == Failure(ReadFromClosedFile)
  {
    RunEndUnique(s.currentLine, 0, IsSpace, |s.currentLine|);
  }

  /** A digit-started token is the longest run of digits; the rest of the line starts right after it. */
  lemma ScansNumber(s: State, i: nat, j: nat)
    requires FirstNonSpace(s.currentLine, i) && i < j <= |s.currentLine|
    requires forall m :: i <= m < j ==> IsDigit(s.currentLine[m])
    requires j == |s.currentLine| || !IsDigit(s.currentLine[j])
    ensures GetNextToken(s) == Success(Emit(s, TNum, s.currentLine[i..j], s.currentLine[j..]))
  {
    StartsAt(s, i);
    RunEndUnique(s.currentLine, i + 1, IsDigit, j);
  }

  /**
   * A letter-started token is the longest alphanumeric run; its kind is the keyword's
   * own kind exactly when the run is one of the ten keywords, and an identifier otherwise.
   */
  lemma ScansWord(s: State, i: nat, j: nat)
    requires FirstNonSpace(s.currentLine, i) && i < j <= |s.currentLine|
    requires IsAlpha(s.currentLine[i])
    requires forall m :: i < m < j ==> IsAlnum(s.currentLine[m])
    requires j == |s.currentLine| || !IsAlnum(s.currentLine[j])
    ensures var w := s.currentLine[i..j];
      exists kind :: GetNextToken(s) == Success(Emit(s, kind, w, s.currentLine[j..]))
        && (w in Keywords ==> kind == KeywordHash()[w])
        && (kind == TId <==> w !in Keywords)
  {
    StartsAt(s, i);
    RunEndUnique(s.currentLine, i + 1, IsAlnum, j);
    KeywordTable();
    KeywordTableInjective();
    var w := s.currentLine[i..j];
    var kind := if w in Keywords then KeywordHash()[w] else TId;
    assert GetNextToken(s) == Success(Emit(s, kind, w, s.currentLine[j..]));
  }

  /** Punctuation and the operators without a two-character form consume exactly their one character. */
  lemma ScansSingleChar(s: State, i: nat)
    requires FirstNonSpace(s.currentLine, i) && i < |s.currentLine|
    requires s.currentLine[i] in SingleCharTokens
    ensures GetNextToken(s)
         == Success(Emit(s, SingleCharTokens[s.currentLine[i]], [s.currentLine[i]], s.currentLine[i + 1..]))
  {
    StartsAt(s, i);
  }

  /**
   * `<`, `>`, `=` and `!` look at the next character: followed by `=` they give `T_LEQ`,
   * `T_GEQ`, `T_EQ` and `T_NEQ` and consume both characters; otherwise `<`, `>` and `=`
   * give `T_LESS`, `T_GREATER` and `T_ASSIGN` and consume one, and a lone `!` leaves the
   * scanner exactly as it was.
   */
  lemma ScansComparison(s: State, i: nat)
    requires FirstNonSpace(s.currentLine, i) && i + 1 < |s.currentLine|
    requires s.currentLine[i] in "<>=!"
    ensures var c, eq := s.currentLine[i], s.currentLine[i + 1] == '=';
      var two, one := s.currentLine[i + 2..], s.currentLine[i + 1..];
      && (c == '<' ==> GetNextToken(s) == Success(if eq then Emit(s, TLeq, "<=", two) else Emit(s, TLess, "<", one)))
      && (c == '>' ==> GetNextToken(s) == Success(if eq then Emit(s, TGeq, ">=", two) else Emit(s, TGreater, ">", one)))
      && (c == '=' ==> GetNextToken(s) == Success(if eq then Emit(s, TEq, "==", two) else Emit(s, TAssign, "=", one)))
      && (c == '!' ==> GetNextToken(s) == Success(if eq then Emit(s, TNeq, "!=", two) else s))
  {
    StartsAt(s, i);
  }

  /** A character that needs lookahead, last on a line with no newline, reads past the end. */
  lemma LookaheadAtEnd(s: State, i: nat)
    requires FirstNonSpace(s.currentLine, i) && i + 1 == |s.currentLine|
    requires s.currentLine[i] in TwoCharTokens || s.currentLine[i] == '/'
    ensures GetNextToken(s) == Failure(LookaheadPastEnd(s.lineNumber, i + 1))
  {
    StartsAt(s, i);
  }

  /** A slash not followed by a star is the division operator. */
  lemma ScansDivision(s: State, i: nat)
    requires FirstNonSpace(s.currentLine, i) && i + 1 < |s.currentLine|
    requires s.currentLine[i] == '/' && s.currentLine[i + 1] != '*'
    ensures GetNextToken(s) == Success(Emit(s, TDiv, "/", s.currentLine[i + 1..]))
  {
    StartsAt(s, i);
  }

  /** Any other character is an error naming the line and the index. */
  lemma UnidentifiableCharacter(s: State, i: nat)
    requires FirstNonSpace(s.currentLine, i) && i < |s.currentLine|
    requires var c := s.currentLine[i];
      !IsDigit(c) && !IsAlpha(c) && c !in SingleCharTokens && c !in TwoCharTokens && c != '/'
    ensures GetNextToken(s) == Failure(UnidentifiableToken(s.lineNumber, i))
  {
    StartsAt(s, i);
  }

  /** When a terminator follows the cursor, the loop stops at the first one. */
  lemma {:induction false} SkipCommentFindsClose(c: Cursor, closed: bool, e: Cursor)
    requires c.j <= |c.line| && SkippedTo(c, e)
    requires |e.input| < |c.input| ==> !closed
    ensures SkipComment(c, closed) == Success(e)
    decreases |c.input|, |c.line| - c.j
  {
    if IsCloseAt(c.line, c.j) {
      SkippedToHere(c, e);
    } else if c.j == |c.line| {
      SkippedToNextLine(c, e);
      SkipCommentFindsClose(Cursor(ReadLine(c.input), 0, Unread(c.input), c.lineNumber + 1), closed, e);
    } else {
      SkippedToNextChar(c, e);
      SkipCommentFindsClose(c.(j := c.j + 1), closed, e);
    }
  }

  /** Without a terminator before the input runs out, the loop fails. */
  lemma {:induction false} SkipCommentNeverCloses(c: Cursor, closed: bool, k: nat)
    requires c.j <= |c.line| && NoCloseIn(c.line, c.j, |c.line|)
    requires k <= |c.input| && (k == |c.input| || c.input[k] == "")
    requires forall m :: 0 <= m < k ==> c.input[m] != "" && NoCloseIn(c.input[m], 0, |c.input[m]|)
    ensures SkipComment(c, closed) == Failure(if closed then InputClosed else NeverClosed)
    decreases |c.input|, |c.line| - c.j
  {
    if c.j < |c.line| {
      SkipCommentNeverCloses(c.(j := c.j + 1), closed, k);
    } else if !closed && k > 0 {
      var next := Cursor(ReadLine(c.input), 0, Unread(c.input), c.lineNumber + 1);
      assert forall m :: 0 <= m < k - 1 ==> c.input[1..][m] == c.input[m + 1];
      SkipCommentNeverCloses(next, closed, k - 1);
    }
  }

  /**
   * A comment opener skips through the first following terminator, possibly on a later line, raises the
   * line counter by the number of lines read, and scanning resumes right after the terminator.
   */
  lemma SkipsComment(s: State, i: nat, e: Cursor)
    requires FirstNonSpace(s.currentLine, i) && i + 1 < |s.currentLine|
    requires s.currentLine[i] == '/' && s.currentLine[i + 1] == '*'
    requires SkippedTo(Cursor(s.currentLine, i + 2, s.input, s.lineNumber), e)
    requires |e.input| < |s.input| ==> !s.closed
    ensures GetNextToken(s)
         == GetNextToken(s.(currentLine := e.line[e.j + 2..], input := e.input, lineNumber := e.lineNumber))
  {
    StartsAt(s, i);
    DispatchesComment(s, i);
    var c := Cursor(s.currentLine, i + 2, s.input, s.lineNumber);
    SkipCommentFindsClose(c, s.closed, e);
    CommentResumes(s, i, e);
  }

  /** A slash followed by a star where the token starts leads to the comment branch. */
  lemma DispatchesComment(s: State, i: nat)
    requires i + 1 < |s.currentLine| && s.currentLine[i] == '/' && s.currentLine[i + 1] == '*'
    ensures ScanToken(s, i) == ScanComment(s, i)
  {
    var c := s.currentLine[i];
    assert !IsDigit(c) && !IsAlpha(c) && c !in SingleCharTokens && c !in TwoCharTokens;
  }

  /** Once the loop has found the terminator, scanning resumes after it. */
  lemma CommentResumes(s: State, i: nat, e: Cursor)
    requires i + 1 < |s.currentLine|
    requires SkipComment(Cursor(s.currentLine, i + 2, s.input, s.lineNumber), s.closed) == Success(e)
    ensures ScanComment(s, i)
         == GetNextToken(s.(currentLine := e.line[e.j + 2..], input := e.input, lineNumber := e.lineNumber))
  {
  }

  /** A comment still open when the input runs out is an error reported at the line and index it began. */
  lemma UnclosedCommentFails(s: State, i: nat, k: nat)
    requires FirstNonSpace(s.currentLine, i) && i + 1 < |s.currentLine|
    requires s.currentLine[i] == '/' && s.currentLine[i + 1] == '*'
    requires NoCloseIn(s.currentLine, i + 2, |s.currentLine|)
    requires k <= |s.input| && (k == |s.input| || s.input[k] == "")
    requires forall m :: 0 <= m < k ==> s.input[m] != "" && NoCloseIn(s.input[m], 0, |s.input[m]|)
    requires !s.closed
    ensures GetNextToken(s) == Failure(UnclosedComment(s.lineNumber, i))
  {
    StartsAt(s, i);
    DispatchesComment(s, i);
    SkipCommentNeverCloses(Cursor(s.currentLine, i + 2, s.input, s.lineNumber), s.closed, k);
  }
}
