/** The third generation's lexer (`tokenize` in `src/lexer.rs`): one pass over
the source text that yields token groups, a new group at every `;`.

Characters are the text's code points; the source indexes bytes, which is the
same for ASCII text only. The line number stored with each token is not
modelled. `tokenize` reaches an identifier or number through `grab(source, i - 1,
…)`, which subtracts below zero when such a token starts the text; `asWritten`
selects that behaviour (a debug build's panic), and `asWritten == false` the
evidently intended start at `i`.
 */
module SrcLexer {
  import opened Wrappers
  import Ints
  import Floats

  datatype Token =
    | Str(s: string)
    | FormattedStr(s: string)
    | Keyword(s: string)
    | Int(n: int)
    | Float(x: real)
    | Identifier(s: string)
    | LParen | RParen | LCurly | RCurly | LSquare | RSquare
    | Operator(s: string)

  const KEYWORDS: seq<string> := ["let"]

  const EXPECTED_VALUE := "Expected value"
  const ONE_POINT := "Float can only have one decimal point"
  const SUBTRACT_OVERFLOW := "attempt to subtract with overflow"
  const PARSE_FAILED := "called `Result::unwrap()` on an `Err` value"

  predicate IsAlpha(c: char) { 'a' <= c <= 'z' || 'A' <= c <= 'Z' }
  predicate IsIdentStart(c: char) { IsAlpha(c) || c == '_' }
  predicate IsIdentChar(c: char) { IsAlpha(c) || Ints.IsDigit(c) || c == '_' }
  predicate IsNumberChar(c: char) { Ints.IsDigit(c) || c == '.' }
  // The operator characters: + - * / > < = ! , ^ %
  predicate IsOperatorChar(c: char) {
    c == '+' || c == '-' || c == '*' || c == '/' || c == '>' || c == '<'
    || c == '=' || c == '!' || c == ',' || c == '^' || c == '%'
  }

  predicate IsBracket(c: char) {
    c == '(' || c == ')' || c == '[' || c == ']' || c == '{' || c == '}'
  }

  predicate IsQuote(c: char) {
    c == '"' || c == '\'' || c == '`'
  }

  /** The character classes `grab` is called with: identifier characters,
      number characters, and anything but a given closing quote. */
  datatype Run = IdentRun | NumberRun | QuotedRun(q: char)

  predicate InRun(c: char, run: Run) {
    match run
    case IdentRun => IsIdentChar(c)
    case NumberRun => IsNumberChar(c)
    case QuotedRun(q) => c != q
  }

  /** `grab`: the run of characters of class `p` from index `from`. */
  function Grab(s: string, from: nat, p: Run): (r: string)
    requires from <= |s|
    decreases |s| - from
    ensures |r| <= |s| - from
  {
    if from == |s| || !InRun(s[from], p) then [] else [s[from]] + Grab(s, from + 1, p)
  }

  /** What `grab` takes is the longest run: the text at `from` on, every
      character of class `p`, and then the end or one that does not. */
  lemma {:induction false} GrabLongest(s: string, from: nat, p: Run)
    requires from <= |s|
    decreases |s| - from
    ensures var r := Grab(s, from, p);
      r == s[from..from + |r|]
      && (forall k :: 0 <= k < |r| ==> InRun(r[k], p))
      && (from + |r| == |s| || !InRun(s[from + |r|], p))
  {
    if from < |s| && InRun(s[from], p) {
      GrabLongest(s, from + 1, p);
      var r := Grab(s, from + 1, p);
      assert s[from..from + 1 + |r|] == [s[from]] + s[from + 1..from + 1 + |r|];
    }
  }

  /** `w` occurs in `s` at index `k`. */
  predicate At(s: string, k: nat, w: string)
    decreases |w|
  {
    k + |w| <= |s| && (|w| == 0 || (s[k] == w[0] && At(s, k + 1, w[1..])))
  }

  /** A concatenation occurs exactly when its two halves occur one after the
      other. */
  lemma {:induction false} AtConcat(s: string, k: nat, a: string, b: string)
    decreases |a|
    ensures At(s, k, a + b) <==> At(s, k, a) && At(s, k + |a|, b)
  {
    if |a| > 0 {
      assert (a + b)[0] == a[0];
      assert (a + b)[1..] == a[1..] + b;
      AtConcat(s, k + 1, a[1..], b);
    } else {
      assert a + b == b;
    }
  }

  /** The pieces of a concatenation occur one after the other. */
  lemma AtParts(s: string, k: nat, a: string, b: string, c: string)
    requires At(s, k, a + b + c)
    ensures At(s, k, a) && At(s, k + |a|, b) && At(s, k + |a| + |b|, c)
    ensures |b| == 1 ==> s[k + |a|] == b[0]
  {
    AtConcat(s, k, a + b, c);
    AtConcat(s, k, a, b);
  }

  /** A text occurs where it is placed. */
  lemma {:induction false} AtPlaced(a: string, w: string, c: string)
    decreases |w|
    ensures At(a + w + c, |a|, w)
  {
    if |w| > 0 {
      assert (a + w + c)[|a|] == w[0];
      assert a + w + c == (a + [w[0]]) + w[1..] + c;
      AtPlaced(a + [w[0]], w[1..], c);
    }
  }

  /** Any run of characters of class `p` that is followed by one that does not
      (or by the end) is what `grab` takes. */
  lemma {:induction false} GrabExact(s: string, from: nat, w: string, p: Run)
    requires At(s, from, w)
    requires forall k :: 0 <= k < |w| ==> InRun(w[k], p)
    requires from + |w| == |s| || !InRun(s[from + |w|], p)
    decreases |w|
    ensures Grab(s, from, p) == w
  {
    if |w| > 0 {
      GrabExact(s, from + 1, w[1..], p);
      assert w == [w[0]] + w[1..];
    }
  }

  function Bracket(c: char): Token
    requires IsBracket(c)
  {
    if c == '(' then LParen else if c == ')' then RParen
    else if c == '[' then LSquare else if c == ']' then RSquare
    else if c == '{' then LCurly else RCurly
  }

  /** Where reading resumes after a `//` comment whose second slash is at
      `from`: just past the first newline after it, or the end of the text. */
  function CommentEnd(s: string, from: nat): (j: nat)
    requires from < |s|
    decreases |s| - from
    ensures from < j <= |s|
  {
    if from + 1 == |s| then |s|
    else if s[from + 1] == '\n' then from + 2
    else CommentEnd(s, from + 1)
  }

  /** The comment runs to the first newline after it, which it includes, or to
      the end of the text when there is none. */
  lemma {:induction false} CommentEndMeaning(s: string, from: nat)
    requires from < |s|
    decreases |s| - from
    ensures var j := CommentEnd(s, from);
      (forall k :: from < k < j - 1 ==> s[k] != '\n')
      && (j < |s| ==> s[j - 1] == '\n')
      && (j == |s| ==> s[j - 1] == '\n' || (forall k :: from < k < |s| ==> s[k] != '\n'))
  {
    if from + 1 < |s| && s[from + 1] != '\n' {
      CommentEndMeaning(s, from + 1);
    }
  }

  /** The token list with `t` added to its last group. */
  function AddToken(groups: seq<seq<Token>>, t: Token): (r: seq<seq<Token>>)
    requires |groups| > 0
    ensures |r| == |groups| && r[..|r| - 1] == groups[..|groups| - 1]
    ensures r[|r| - 1] == groups[|groups| - 1] + [t]
  {
    groups[..|groups| - 1] + [groups[|groups| - 1] + [t]]
  }

  /** One turn of the loop in `tokenize`, on the character at `i`: where
      reading resumes and the token groups after it. */
  function Lex1(s: string, i: nat, groups: seq<seq<Token>>, asWritten: bool): (r: Result<(nat, seq<seq<Token>>)>)
    requires i < |s| && |groups| > 0
    ensures r.Ok? ==> i < r.value.0 <= |s|
    ensures r.Ok? ==> |groups| <= |r.value.1| && r.value.1[..|groups| - 1] == groups[..|groups| - 1]
  {
    var c := s[i];
    if c == '\n' then Ok((i + 1, groups))
    else if c == ';' then Ok((i + 1, groups + [[]]))
    else if IsBracket(c) then Ok((i + 1, AddToken(groups, Bracket(c))))
    else if IsOperatorChar(c) then LexOperator(s, i, groups)
    else if IsQuote(c) then Ok(LexQuoted(s, i, groups))
    else if IsIdentStart(c) then
      if asWritten && i == 0 then Err(SUBTRACT_OVERFLOW) else Ok(LexWord(s, i, groups))
    else if IsNumberChar(c) then
      if asWritten && i == 0 then Err(SUBTRACT_OVERFLOW) else LexNumber(s, i, groups)
    else Ok((i + 1, groups))
  }

  /** An operator character: a two-character operator when the next character
      completes one, a `//` comment, or the character alone. The operator cannot
      be the last character of the text. */
  function LexOperator(s: string, i: nat, groups: seq<seq<Token>>): (r: Result<(nat, seq<seq<Token>>)>)
    requires i < |s| && |groups| > 0
    ensures r.Ok? ==> i < r.value.0 <= |s|
    ensures r.Ok? ==> |r.value.1| == |groups| && r.value.1[..|groups| - 1] == groups[..|groups| - 1]
  {
    var c := s[i];
    if i + 1 == |s| then Err(EXPECTED_VALUE)
    else
      var d := s[i + 1];
      if d == '=' then Ok((i + 2, AddToken(groups, Operator([c, '=']))))
      else if d == '>' && c == '-' then Ok((i + 2, AddToken(groups, Operator("->"))))
      else if (d == '<' || d == '>') && d == c then Ok((i + 2, AddToken(groups, Operator([d, c]))))
      else if c == '/' && d == '/' then Ok((CommentEnd(s, i + 1), groups))
      else Ok((i + 1, AddToken(groups, Operator([c]))))
  }

  /** A quoted run up to the matching quote, which is skipped too (an
      unterminated one runs to the end); backticks make a formatted string. */
  function LexQuoted(s: string, i: nat, groups: seq<seq<Token>>): (r: (nat, seq<seq<Token>>))
    requires i < |s| && |groups| > 0
    ensures i < r.0 <= |s|
    ensures |r.1| == |groups| && r.1[..|groups| - 1] == groups[..|groups| - 1]
  {
    var c := s[i];
    var body := Grab(s, i + 1, QuotedRun(c));
    var next := if i + |body| + 2 <= |s| then i + |body| + 2 else |s|;
    (next, AddToken(groups, if c == '`' then FormattedStr(body) else Str(body)))
  }

  /** An identifier, or the keyword when it is one. */
  function LexWord(s: string, i: nat, groups: seq<seq<Token>>): (r: (nat, seq<seq<Token>>))
    requires i < |s| && |groups| > 0 && IsIdentStart(s[i])
    ensures i < r.0 <= |s|
    ensures |r.1| == |groups| && r.1[..|groups| - 1] == groups[..|groups| - 1]
  {
    var word := Grab(s, i, IdentRun);
    (i + |word|, AddToken(groups, if word in KEYWORDS then Keyword(word) else Identifier(word)))
  }

  /** A run of digits and points. */
  function LexNumber(s: string, i: nat, groups: seq<seq<Token>>): (r: Result<(nat, seq<seq<Token>>)>)
    requires i < |s| && |groups| > 0 && IsNumberChar(s[i])
    ensures r.Ok? ==> i < r.value.0 <= |s|
    ensures r.Ok? ==> |r.value.1| == |groups| && r.value.1[..|groups| - 1] == groups[..|groups| - 1]
  {
    var text := Grab(s, i, NumberRun);
    var t :- NumberToken(text);
    Ok((i + |text|, AddToken(groups, t)))
  }

  /** The token a run of number characters makes: an `i32` without a point, a
      float with one, an error with more. */
  function NumberToken(text: string): (r: Result<Token>)
    ensures Floats.DotCount(text) > 1 ==> r == Err(ONE_POINT)
    ensures r.Ok? && Floats.DotCount(text) == 0 ==> r.value.Int? && Ints.IsI32(r.value.n)
    ensures r.Ok? && Floats.DotCount(text) == 1 ==> r.value.Float?
  {
    var dots := Floats.DotCount(text);
    if dots == 0 then
      (match Ints.ParseInt(text, Ints.I32_MIN, Ints.I32_MAX)
       case Some(n) => Ok(Int(n))
       case None => Err(PARSE_FAILED))
    else if dots == 1 then
      (match Floats.ParseFloat(text)
       case Some(x) => Ok(Float(x))
       case None => Err(PARSE_FAILED))
    else Err(ONE_POINT)
  }

  /** The decimal spelling of an `i32` at or above zero reads back as it. */
  lemma DecimalToken(n: int)
    requires 0 <= n <= Ints.I32_MAX
    ensures NumberToken(Ints.NatToDecimal(n)) == Ok(Int(n))
  {
    DigitsHaveNoDot(Ints.NatToDecimal(n));
    Ints.ParseIntRoundTrip(n, Ints.I32_MIN, Ints.I32_MAX);
    assert Ints.IntToDecimal(n) == Ints.NatToDecimal(n);
  }

  /** The loop of `tokenize` from index `i` to the end. Groups already closed
      by a `;` stay as they are. */
  function Scan(s: string, i: nat, groups: seq<seq<Token>>, asWritten: bool): (r: Result<seq<seq<Token>>>)
    requires i <= |s| && |groups| > 0
    decreases |s| - i, 1
    ensures r.Ok? ==> |groups| <= |r.value|
  {
    if i == |s| then Ok(groups) else ScanTurn(s, i, groups, asWritten)
  }

  /** One turn of the loop, on the character at `i`, then the rest of it. */
  function ScanTurn(s: string, i: nat, groups: seq<seq<Token>>, asWritten: bool): (r: Result<seq<seq<Token>>>)
    requires i < |s| && |groups| > 0
    decreases |s| - i, 0
    ensures r.Ok? ==> |groups| <= |r.value|
  {
    var (j, next) :- Lex1(s, i, groups, asWritten);
    Scan(s, j, next, asWritten)
  }


  /** `tokenize`: the text with one space appended, from one empty group. */
  function Tokenize(src: string, asWritten: bool): (r: Result<seq<seq<Token>>>)
    ensures r.Ok? ==> |r.value| >= 1
  {
    Scan(src + " ", 0, [[]], asWritten)
  }

  // The token spellings the lexer reads back.

  predicate IsWord(w: string) {
    |w| > 0 && IsIdentStart(w[0]) && forall k :: 0 <= k < |w| ==> IsIdentChar(w[k])
  }

  /** The operator tokens the lexer produces. */
  predicate IsOperatorSpelling(o: string) {
    (|o| == 1 && IsOperatorChar(o[0]))
    || (|o| == 2 && IsOperatorChar(o[0]) && o[1] == '=')
    || o == "->" || o == "<<" || o == ">>"
  }

  /** Tokens with a spelling: floats are left out (their text is not modelled),
      integers are the non-negative `i32`s, and a string must not contain its
      closing quote. */
  predicate Spellable(t: Token) {
    match t
    case Identifier(w) => IsWord(w) && w !in KEYWORDS
    case Keyword(w) => w in KEYWORDS
    case Int(n) => 0 <= n <= Ints.I32_MAX
    case Float(_) => false
    case Str(x) => '"' !in x
    case FormattedStr(x) => '`' !in x
    case Operator(o) => IsOperatorSpelling(o)
    case _ => true
  }

  function Spell(t: Token): (w: string)
    requires Spellable(t)
    ensures |w| > 0
  {
    match t
    case Identifier(w) => w
    case Keyword(w) => w
    case Int(n) => Ints.NatToDecimal(n)
    case Str(x) => "\"" + x + "\""
    case FormattedStr(x) => "`" + x + "`"
    case Operator(o) => o
    case LParen => "("
    case RParen => ")"
    case LSquare => "["
    case RSquare => "]"
    case LCurly => "{"
    case RCurly => "}"
  }

  predicate AllSpellable(g: seq<Token>) {
    forall k :: 0 <= k < |g| ==> Spellable(g[k])
  }

  /** Each token's spelling followed by one space. */
  function SpellGroup(g: seq<Token>): string
    requires AllSpellable(g)
    decreases |g|
  {
    if |g| == 0 then "" else Spell(g[0]) + " " + SpellGroup(g[1..])
  }

  /** The groups' spellings separated by `;`. */
  function SpellProgram(gs: seq<seq<Token>>): string
    requires |gs| > 0 && forall k :: 0 <= k < |gs| ==> AllSpellable(gs[k])
    decreases |gs|
  {
    if |gs| == 1 then SpellGroup(gs[0]) else SpellGroup(gs[0]) + ";" + SpellProgram(gs[1..])
  }

  lemma {:induction false} DigitsHaveNoDot(s: string)
    requires Ints.AllDigits(s)
    decreases |s|
    ensures Floats.DotCount(s) == 0
  {
    if |s| > 0 {
      DigitsHaveNoDot(s[..|s| - 1]);
    }
  }

  /** The spelling of `t` and then a space occur at `k`. */
  predicate TokenAt(s: string, k: nat, t: Token) {
    Spellable(t) && At(s, k, Spell(t)) && k + |Spell(t)| < |s| && s[k + |Spell(t)|] == ' '
  }

  /** Which reader `tokenize` hands a character to, away from index 0. */
  lemma Lex1Dispatch(s: string, i: nat, groups: seq<seq<Token>>)
    requires i < |s| && |groups| > 0
    ensures IsBracket(s[i]) ==> Lex1(s, i, groups, false) == Ok((i + 1, AddToken(groups, Bracket(s[i]))))
    ensures IsOperatorChar(s[i]) ==> Lex1(s, i, groups, false) == LexOperator(s, i, groups)
    ensures IsQuote(s[i]) ==> Lex1(s, i, groups, false) == Ok(LexQuoted(s, i, groups))
    ensures IsIdentStart(s[i]) ==> Lex1(s, i, groups, false) == Ok(LexWord(s, i, groups))
    ensures IsNumberChar(s[i]) && !IsIdentStart(s[i]) ==> Lex1(s, i, groups, false) == LexNumber(s, i, groups)
  {
  }

  /** A spelled token followed by a space is lexed back as that token. */
  lemma LexToken(s: string, k: nat, groups: seq<seq<Token>>, t: Token)
    requires |groups| > 0
    requires TokenAt(s, k, t)
    ensures Lex1(s, k, groups, false) == Ok((k + |Spell(t)|, AddToken(groups, t)))
  {
    if t.Identifier? || t.Keyword? {
      LexTokenWord(s, k, groups, t);
    } else if t.Int? {
      assert Spell(t) == Ints.NatToDecimal(t.n);
      LexTokenInt(s, k, groups, t.n);
    } else if t.Str? || t.FormattedStr? {
      LexTokenQuoted(s, k, groups, t);
    } else if t.Operator? {
      LexTokenOperator(s, k, groups, t);
    } else {
      LexTokenOther(s, k, groups, t);
    }
  }

  lemma LexTokenWord(s: string, k: nat, groups: seq<seq<Token>>, t: Token)
    requires |groups| > 0 && TokenAt(s, k, t) && (t.Identifier? || t.Keyword?)
    ensures Lex1(s, k, groups, false) == Ok((k + |Spell(t)|, AddToken(groups, t)))
  {
    Lex1Dispatch(s, k, groups);
    WordRead(s, k, groups, t);
  }

  lemma LexTokenInt(s: string, k: nat, groups: seq<seq<Token>>, n: int)
    requires |groups| > 0 && 0 <= n <= Ints.I32_MAX
    requires At(s, k, Ints.NatToDecimal(n)) && k + |Ints.NatToDecimal(n)| < |s|
    requires s[k + |Ints.NatToDecimal(n)|] == ' '
    ensures Lex1(s, k, groups, false) == Ok((k + |Ints.NatToDecimal(n)|, AddToken(groups, Int(n))))
  {
    LexDigits(s, k, groups, n);
    Lex1Number(s, k, groups);
  }

  /** A number character that cannot start a word goes to the number reader. */
  lemma Lex1Number(s: string, i: nat, groups: seq<seq<Token>>)
    requires i < |s| && |groups| > 0 && IsNumberChar(s[i]) && !IsIdentStart(s[i])
    ensures Lex1(s, i, groups, false) == LexNumber(s, i, groups)
  {
    Lex1Dispatch(s, i, groups);
  }

  lemma LexTokenQuoted(s: string, k: nat, groups: seq<seq<Token>>, t: Token)
    requires |groups| > 0 && TokenAt(s, k, t) && (t.Str? || t.FormattedStr?)
    ensures Lex1(s, k, groups, false) == Ok((k + |Spell(t)|, AddToken(groups, t)))
  {
    Lex1Dispatch(s, k, groups);
    QuotedRead(s, k, groups, t);
  }

  lemma LexTokenOperator(s: string, k: nat, groups: seq<seq<Token>>, t: Token)
    requires |groups| > 0 && TokenAt(s, k, t) && t.Operator?
    ensures Lex1(s, k, groups, false) == Ok((k + |Spell(t)|, AddToken(groups, t)))
  {
    Lex1Dispatch(s, k, groups);
    OperatorRead(s, k, groups, t);
  }

  lemma LexTokenOther(s: string, k: nat, groups: seq<seq<Token>>, t: Token)
    requires |groups| > 0 && TokenAt(s, k, t)
    requires !(t.Identifier? || t.Keyword? || t.Int? || t.Str? || t.FormattedStr? || t.Operator?)
    ensures Lex1(s, k, groups, false) == Ok((k + |Spell(t)|, AddToken(groups, t)))
  {
    Lex1Dispatch(s, k, groups);
    assert s[k] == Spell(t)[0];
  }

  /** A spelled identifier or keyword is read back by the word reader. */
  lemma WordRead(s: string, k: nat, groups: seq<seq<Token>>, t: Token)
    requires |groups| > 0 && (t.Identifier? || t.Keyword?)
    requires TokenAt(s, k, t)
    ensures IsIdentStart(s[k])
    ensures LexWord(s, k, groups) == (k + |Spell(t)|, AddToken(groups, t))
  {
    assert Spell(t) == t.s;
    if t.Keyword? {
      KeywordRead(s, k, groups, t.s);
    } else {
      IdentifierRead(s, k, groups, t.s);
    }
  }

  lemma KeywordRead(s: string, k: nat, groups: seq<seq<Token>>, x: string)
    requires |groups| > 0 && x in KEYWORDS
    requires At(s, k, x) && k + |x| < |s| && s[k + |x|] == ' '
    ensures IsIdentStart(s[k]) && LexWord(s, k, groups) == (k + |x|, AddToken(groups, Keyword(x)))
  {
    KeywordsAreWords(x);
    WordGrab(s, k, x);
  }

  lemma IdentifierRead(s: string, k: nat, groups: seq<seq<Token>>, x: string)
    requires |groups| > 0 && IsWord(x) && x !in KEYWORDS
    requires At(s, k, x) && k + |x| < |s| && s[k + |x|] == ' '
    ensures IsIdentStart(s[k]) && LexWord(s, k, groups) == (k + |x|, AddToken(groups, Identifier(x)))
  {
    WordGrab(s, k, x);
  }

  /** A word followed by a space is what the identifier run grabs. */
  lemma WordGrab(s: string, k: nat, x: string)
    requires IsWord(x) && At(s, k, x) && k + |x| < |s| && s[k + |x|] == ' '
    ensures IsIdentStart(s[k]) && Grab(s, k, IdentRun) == x
  {
    assert s[k] == x[0];
    assert forall j :: 0 <= j < |x| ==> InRun(x[j], IdentRun);
    GrabExact(s, k, x, IdentRun);
  }

  lemma KeywordsAreWords(x: string)
    requires x in KEYWORDS
    ensures IsWord(x)
  {
  }

  /** A decimal spelling is read back by the number reader. */
  lemma LexDigits(s: string, k: nat, groups: seq<seq<Token>>, n: int)
    requires |groups| > 0 && 0 <= n <= Ints.I32_MAX
    requires At(s, k, Ints.NatToDecimal(n)) && k + |Ints.NatToDecimal(n)| < |s|
    requires s[k + |Ints.NatToDecimal(n)|] == ' '
    ensures IsNumberChar(s[k]) && !IsIdentStart(s[k])
    ensures LexNumber(s, k, groups) == Ok((k + |Ints.NatToDecimal(n)|, AddToken(groups, Int(n))))
  {
    var text := Ints.NatToDecimal(n);
    assert s[k] == text[0];
    assert forall j :: 0 <= j < |text| ==> InRun(text[j], NumberRun);
    GrabExact(s, k, text, NumberRun);
    DecimalToken(n);
  }

  /** The spelling `n.d` of a whole number and one digit reads back as the float
      n + d/10. */
  lemma OneDecimalToken(n: nat, d: nat)
    requires d < 10
    ensures NumberToken(Floats.OneDecimal(n, d)) == Ok(Float(n as real + d as real / 10.0))
  {
    Floats.OneDecimalValue(n, d);
    FloatToken(Floats.OneDecimal(n, d), n as real + d as real / 10.0);
  }

  /** A run of digits with one point, of value `x`, becomes the token `Float(x)`. */
  lemma FloatToken(text: string, x: real)
    requires Floats.IsDecimalText(text) && Floats.DotCount(text) == 1
    requires Floats.DecimalValue(text) == x
    ensures NumberToken(text) == Ok(Float(x))
  {
    Floats.ParseSigned(text, x);
  }

  /** The number reader takes the whole spelling `n.d` and adds that float. */
  lemma LexOneDecimal(s: string, k: nat, groups: seq<seq<Token>>, n: nat, d: nat)
    requires |groups| > 0 && d < 10
    requires At(s, k, Floats.OneDecimal(n, d)) && k + |Floats.OneDecimal(n, d)| < |s|
    requires s[k + |Floats.OneDecimal(n, d)|] == ' '
    ensures IsNumberChar(s[k]) && !IsIdentStart(s[k])
    ensures LexNumber(s, k, groups)
      == Ok((k + |Floats.OneDecimal(n, d)|, AddToken(groups, Float(n as real + d as real / 10.0))))
  {
    var text := Floats.OneDecimal(n, d);
    Floats.OneDecimalValue(n, d);
    assert s[k] == text[0];
    assert forall j :: 0 <= j < |text| ==> InRun(text[j], NumberRun);
    GrabExact(s, k, text, NumberRun);
    OneDecimalToken(n, d);
  }

  /** Where the quotes and the body of a quoted spelling are. */
  lemma QuotedParts(s: string, k: nat, q: char, x: string)
    requires At(s, k, [q] + x + [q])
    ensures k + |x| + 2 <= |s| && s[k] == q && At(s, k + 1, x) && s[k + 1 + |x|] == q
  {
    AtParts(s, k, [q], x, [q]);
  }

  /** A quoted spelling is read back by the string reader: the opening quote,
      the body up to the closing one. */
  lemma QuotedRead(s: string, k: nat, groups: seq<seq<Token>>, t: Token)
    requires |groups| > 0 && (t.Str? || t.FormattedStr?)
    requires TokenAt(s, k, t)
    ensures IsQuote(s[k])
    ensures LexQuoted(s, k, groups) == (k + |Spell(t)|, AddToken(groups, t))
  {
    var q := if t.Str? then '"' else '`';
    var x := t.s;
    assert Spell(t) == [q] + x + [q];
    QuotedParts(s, k, q, x);
    assert forall j :: 0 <= j < |x| ==> InRun(x[j], QuotedRun(q));
    GrabExact(s, k + 1, x, QuotedRun(q));
  }

  /** An operator spelling followed by a space is read back by the operator
      reader. */
  lemma OperatorRead(s: string, k: nat, groups: seq<seq<Token>>, t: Token)
    requires |groups| > 0 && t.Operator?
    requires TokenAt(s, k, t)
    ensures IsOperatorChar(s[k])
    ensures LexOperator(s, k, groups) == Ok((k + |Spell(t)|, AddToken(groups, t)))
  {
    var o := t.s;
    assert Spell(t) == o;
    assert s[k] == o[0];
    if |o| == 1 {
      assert o == [o[0]];
    } else {
      assert At(s, k + 1, o[1..]);
      assert s[k + 1] == o[1];
      assert o == [o[0], o[1]];
    }
  }

  /** Scanning from `k`, as intended, gives `r`. */
  predicate ScansTo(s: string, k: nat, groups: seq<seq<Token>>, r: Result<seq<seq<Token>>>)
    requires k <= |s| && |groups| > 0
  {
    Scan(s, k, groups, false) == r
  }

  /** A token read in full moves scanning past it. */
  lemma ScanStep(s: string, i: nat, groups: seq<seq<Token>>, asWritten: bool)
    requires i < |s| && |groups| > 0 && Lex1(s, i, groups, asWritten).Ok?
    ensures Scan(s, i, groups, asWritten) ==
      Scan(s, Lex1(s, i, groups, asWritten).value.0, Lex1(s, i, groups, asWritten).value.1, asWritten)
  {
  }

  /** A token that cannot be read ends scanning with its error. */
  lemma ScanFails(s: string, i: nat, groups: seq<seq<Token>>, asWritten: bool)
    requires i < |s| && |groups| > 0 && Lex1(s, i, groups, asWritten).Err?
    ensures Scan(s, i, groups, asWritten) == Err(Lex1(s, i, groups, asWritten).msg)
  {
  }

  /** The token list with a whole group's tokens added to its last group. */
  function AppendAll(groups: seq<seq<Token>>, g: seq<Token>): seq<seq<Token>>
    requires |groups| > 0
  {
    groups[..|groups| - 1] + [groups[|groups| - 1] + g]
  }

  /** The text of a group (each token's spelling and a space) scans into that
      group: scanning from its start gives what scanning from its end `e`,
      with the group's tokens added (`fin`), gives. */
  lemma {:induction false} ScanGroup(s: string, k: nat, groups: seq<seq<Token>>, g: seq<Token>,
                                     e: nat, fin: seq<seq<Token>>, r: Result<seq<seq<Token>>>)
    requires |groups| > 0 && AllSpellable(g) && At(s, k, SpellGroup(g))
    requires e == k + |SpellGroup(g)| && fin == AppendAll(groups, g)
    requires ScansTo(s, e, fin, r)
    decreases |g|
    ensures ScansTo(s, k, groups, r)
  {
    if |g| == 0 {
      EmptyGroupScans(s, k, groups, g, e, fin, r);
    } else {
      GroupParts(s, k, groups, g, e, fin);
      ScanGroup(s, k + |Spell(g[0])| + 1, AddToken(groups, g[0]), g[1..], e, fin, r);
      TokenThenSpace(s, k, groups, g[0], r);
    }
  }

  lemma EmptyGroupScans(s: string, k: nat, groups: seq<seq<Token>>, g: seq<Token>,
                        e: nat, fin: seq<seq<Token>>, r: Result<seq<seq<Token>>>)
    requires |groups| > 0 && |g| == 0 && At(s, k, SpellGroup(g))
    requires e == k + |SpellGroup(g)| && fin == AppendAll(groups, g)
    requires ScansTo(s, e, fin, r)
    ensures ScansTo(s, k, groups, r)
  {
    NothingAppended(groups, g);
  }

  lemma NothingAppended(groups: seq<seq<Token>>, g: seq<Token>)
    requires |groups| > 0 && |g| == 0
    ensures AppendAll(groups, g) == groups
  {
    var n := |groups|;
    assert groups[n - 1] + g == groups[n - 1];
    assert groups[..n - 1] + [groups[n - 1]] == groups;
  }

  /** Where the first token, its space and the rest of a group's text are,
      and what is left to add after the first token. */
  lemma GroupParts(s: string, k: nat, groups: seq<seq<Token>>, g: seq<Token>, e: nat, fin: seq<seq<Token>>)
    requires |groups| > 0 && |g| > 0 && AllSpellable(g) && At(s, k, SpellGroup(g))
    requires e == k + |SpellGroup(g)| && fin == AppendAll(groups, g)
    ensures TokenAt(s, k, g[0])
    ensures AllSpellable(g[1..]) && At(s, k + |Spell(g[0])| + 1, SpellGroup(g[1..]))
    ensures e == k + |Spell(g[0])| + 1 + |SpellGroup(g[1..])|
    ensures fin == AppendAll(AddToken(groups, g[0]), g[1..])
  {
    GroupHead(s, k, g);
    AppendAllStep(groups, g);
  }

  /** The text of a group starts with its first token's spelling and a space. */
  lemma GroupHead(s: string, k: nat, g: seq<Token>)
    requires |g| > 0 && AllSpellable(g) && At(s, k, SpellGroup(g))
    ensures TokenAt(s, k, g[0])
    ensures AllSpellable(g[1..]) && At(s, k + |Spell(g[0])| + 1, SpellGroup(g[1..]))
    ensures |SpellGroup(g)| == |Spell(g[0])| + 1 + |SpellGroup(g[1..])|
  {
    assert Spellable(g[0]);
    assert AllSpellable(g[1..]) by {
      forall j | 0 <= j < |g| - 1 ensures Spellable(g[1..][j]) {
        assert g[1..][j] == g[j + 1];
      }
    }
    var a, c := Spell(g[0]), SpellGroup(g[1..]);
    assert SpellGroup(g) == a + " " + c;
    AtParts(s, k, a, " ", c);
  }

  /** A spelled token and the space after it. */
  lemma TokenThenSpace(s: string, k: nat, groups: seq<seq<Token>>, t: Token, r: Result<seq<seq<Token>>>)
    requires |groups| > 0
    requires TokenAt(s, k, t)
    requires ScansTo(s, k + |Spell(t)| + 1, AddToken(groups, t), r)
    ensures ScansTo(s, k, groups, r)
  {
    ScanSpace(s, k + |Spell(t)|, AddToken(groups, t), r);
    ScanToken(s, k, groups, t, r);
  }

  lemma AppendAllStep(groups: seq<seq<Token>>, g: seq<Token>)
    requires |groups| > 0 && |g| > 0
    ensures AppendAll(AddToken(groups, g[0]), g[1..]) == AppendAll(groups, g)
  {
    var n := |groups|;
    var g1 := AddToken(groups, g[0]);
    assert g1[..n - 1] == groups[..n - 1];
    assert g1[n - 1] + g[1..] == groups[n - 1] + g by {
      assert g == [g[0]] + g[1..];
    }
  }

  /** Scanning from a spelled token gives what scanning past it, with the
      token added, gives. */
  lemma ScanToken(s: string, k: nat, groups: seq<seq<Token>>, t: Token, r: Result<seq<seq<Token>>>)
    requires |groups| > 0
    requires TokenAt(s, k, t)
    requires ScansTo(s, k + |Spell(t)|, AddToken(groups, t), r)
    ensures ScansTo(s, k, groups, r)
  {
    LexToken(s, k, groups, t);
    ScanStep(s, k, groups, false);
  }

  /** A space is skipped. */
  lemma SpaceSkipped(s: string, k: nat, groups: seq<seq<Token>>, asWritten: bool)
    requires k < |s| && |groups| > 0 && s[k] == ' '
    ensures Lex1(s, k, groups, asWritten) == Ok((k + 1, groups))
  {
    assert !IsBracket(' ') && !IsOperatorChar(' ') && !IsQuote(' ');
  }

  lemma ScanSpace(s: string, k: nat, groups: seq<seq<Token>>, r: Result<seq<seq<Token>>>)
    requires k < |s| && |groups| > 0 && s[k] == ' '
    requires ScansTo(s, k + 1, groups, r)
    ensures ScansTo(s, k, groups, r)
  {
    SpaceSkipped(s, k, groups, false);
    ScanStep(s, k, groups, false);
  }

  /** Trailing spaces add nothing. */
  lemma {:induction false} ScanSpaces(s: string, k: nat, groups: seq<seq<Token>>)
    requires k <= |s| && |groups| > 0
    requires Blank(s, k)
    decreases |s| - k
    ensures ScansTo(s, k, groups, Ok(groups))
  {
    if k < |s| {
      ScanSpaces(s, k + 1, groups);
      ScanSpace(s, k, groups, Ok(groups));
    }
  }

  /** A `;` opens a new group. */
  lemma ScanSemicolon(s: string, k: nat, groups: seq<seq<Token>>, r: Result<seq<seq<Token>>>)
    requires k < |s| && |groups| > 0 && s[k] == ';'
    requires ScansTo(s, k + 1, groups + [[]], r)
    ensures ScansTo(s, k, groups, r)
  {
    assert Lex1(s, k, groups, false) == Ok((k + 1, groups + [[]]));
    ScanStep(s, k, groups, false);
  }

  /** The text of a last group, then only spaces, scans into that group. */
  lemma ScanLastGroup(s: string, k: nat, groups: seq<seq<Token>>, g: seq<Token>)
    requires |groups| > 0 && AllSpellable(g) && At(s, k, SpellGroup(g))
    requires Blank(s, k + |SpellGroup(g)|)
    ensures ScansTo(s, k, groups, Ok(AppendAll(groups, g)))
  {
    var e := k + |SpellGroup(g)|;
    ScanSpaces(s, e, AppendAll(groups, g));
    ScanGroup(s, k, groups, g, e, AppendAll(groups, g), Ok(AppendAll(groups, g)));
  }

  /** The text of a group and the `;` closing it: scanning from its start
      gives what scanning the next group, from one more empty group, gives. */
  lemma ScanClosedGroup(s: string, k: nat, groups: seq<seq<Token>>, g: seq<Token>, r: Result<seq<seq<Token>>>)
    requires |groups| > 0 && AllSpellable(g) && At(s, k, SpellGroup(g) + ";")
    requires ScansTo(s, k + |SpellGroup(g)| + 1, AppendAll(groups, g) + [[]], r)
    ensures ScansTo(s, k, groups, r)
  {
    var e := k + |SpellGroup(g)|;
    AtConcat(s, k, SpellGroup(g), ";");
    ScanSemicolon(s, e, AppendAll(groups, g), r);
    ScanGroup(s, k, groups, g, e, AppendAll(groups, g), r);
  }

  /** Only spaces from `from` on. */
  predicate Blank(s: string, from: nat) {
    forall j :: from <= j < |s| ==> s[j] == ' '
  }

  /** The text of several groups, ending at `e`, then only spaces, scans into
      those groups. */
  lemma {:induction false} ScanProgram(s: string, k: nat, groups: seq<seq<Token>>, gs: seq<seq<Token>>, e: nat)
    requires |groups| > 0 && |gs| > 0
    requires forall j :: 0 <= j < |gs| ==> AllSpellable(gs[j])
    requires At(s, k, SpellProgram(gs)) && e == k + |SpellProgram(gs)| && Blank(s, e)
    decreases |gs|, 1
    ensures ScansTo(s, k, groups, Ok(AppendAll(groups, gs[0]) + gs[1..]))
  {
    if |gs| == 1 {
      ScanLastGroup(s, k, groups, gs[0]);
      assert AppendAll(groups, gs[0]) + gs[1..] == AppendAll(groups, gs[0]);
    } else {
      ScanClosedProgram(s, k, groups, gs, e);
    }
  }

  /** Several groups: the first, its `;`, then the others. */
  lemma {:induction false} ScanClosedProgram(s: string, k: nat, groups: seq<seq<Token>>, gs: seq<seq<Token>>, e: nat)
    requires |groups| > 0 && |gs| > 1
    requires forall j :: 0 <= j < |gs| ==> AllSpellable(gs[j])
    requires At(s, k, SpellProgram(gs)) && e == k + |SpellProgram(gs)| && Blank(s, e)
    decreases |gs|, 0
    ensures ScansTo(s, k, groups, Ok(AppendAll(groups, gs[0]) + gs[1..]))
  {
    var g1 := AppendAll(groups, gs[0]);
    var k1 := k + |SpellGroup(gs[0])| + 1;
    ProgramParts(s, k, gs, e);
    ScanProgram(s, k1, g1 + [[]], gs[1..], e);
    AppendNext(g1, gs[1..]);
    assert ScansTo(s, k1, g1 + [[]], Ok(g1 + gs[1..]));
    assert AllSpellable(gs[0]);
    ScanClosedGroup(s, k, groups, gs[0], Ok(g1 + gs[1..]));
  }

  /** Where the first group with its `;` and the remaining groups' text are. */
  lemma ProgramParts(s: string, k: nat, gs: seq<seq<Token>>, e: nat)
    requires |gs| > 1 && forall j :: 0 <= j < |gs| ==> AllSpellable(gs[j])
    requires At(s, k, SpellProgram(gs)) && e == k + |SpellProgram(gs)|
    ensures |gs[1..]| > 0 && forall j :: 0 <= j < |gs[1..]| ==> AllSpellable(gs[1..][j])
    ensures At(s, k, SpellGroup(gs[0]) + ";")
    ensures At(s, k + |SpellGroup(gs[0])| + 1, SpellProgram(gs[1..]))
    ensures e == k + |SpellGroup(gs[0])| + 1 + |SpellProgram(gs[1..])|
  {
    var head := SpellGroup(gs[0]) + ";";
    assert forall j :: 0 <= j < |gs[1..]| ==> AllSpellable(gs[1..][j]);
    assert SpellProgram(gs) == head + SpellProgram(gs[1..]);
    AtConcat(s, k, head, SpellProgram(gs[1..]));
  }

  lemma AppendNext(groups: seq<seq<Token>>, rest: seq<seq<Token>>)
    requires |groups| > 0 && |rest| > 0
    ensures AppendAll(groups + [[]], rest[0]) + rest[1..] == groups + rest
  {
    var n := |groups|;
    assert (groups + [[]])[..n] == groups;
    assert (groups + [[]])[n] + rest[0] == rest[0];
    assert rest == [rest[0]] + rest[1..];
  }


  /** Spelling token groups and lexing the text gives the groups back. The
      text starts with a space: the lexer as written cannot start with an
      identifier or number. */
  lemma RoundTrip(gs: seq<seq<Token>>)
    requires |gs| > 0 && forall j :: 0 <= j < |gs| ==> AllSpellable(gs[j])
    ensures Tokenize(" " + SpellProgram(gs), false) == Ok(gs)
    ensures Tokenize(" " + SpellProgram(gs), true) == Ok(gs)
  {
    ProgramScans(gs);
    LeadingSpace(SpellProgram(gs), Ok(gs));
  }

  /** With index 0 read like every other index, the text of token groups lexes
      back into those groups with no leading space. */
  lemma CorrectedRoundTrip(gs: seq<seq<Token>>)
    requires |gs| > 0 && forall j :: 0 <= j < |gs| ==> AllSpellable(gs[j])
    ensures Tokenize(SpellProgram(gs), false) == Ok(gs)
  {
    TrailedProgram(SpellProgram(gs), gs);
  }

  lemma TrailedProgram(p: string, gs: seq<seq<Token>>)
    requires |gs| > 0 && forall j :: 0 <= j < |gs| ==> AllSpellable(gs[j])
    requires p == SpellProgram(gs)
    ensures Scan(p + " ", 0, [[]], false) == Ok(gs)
  {
    FromOneGroup(gs);
    Trailed(p);
    ScanProgram(p + " ", 0, [[]], gs, |p|);
  }

  /** Where a text is inside itself followed by one space. */
  lemma Trailed(p: string)
    ensures At(p + " ", 0, p)
    ensures Blank(p + " ", |p|)
  {
    AtPlaced([], p, " ");
    assert [] + p + " " == p + " ";
  }

  /** A program whose first token is an identifier or an integer: the lexer as
      written fails on its text, the corrected one reads the groups back. */
  lemma RoundTripNeedsIndexZero(gs: seq<seq<Token>>)
    requires |gs| > 0 && forall j :: 0 <= j < |gs| ==> AllSpellable(gs[j])
    requires |gs[0]| > 0 && (gs[0][0].Identifier? || gs[0][0].Int?)
    ensures Tokenize(SpellProgram(gs), true) == Err(SUBTRACT_OVERFLOW)
    ensures Tokenize(SpellProgram(gs), false) == Ok(gs)
  {
    var p, w := SpellProgram(gs), Spell(gs[0][0]);
    assert p[0] == w[0] by {
      assert SpellGroup(gs[0]) == w + " " + SpellGroup(gs[0][1..]);
    }
    assert IsIdentStart(w[0]) || IsNumberChar(w[0]);
    AsWrittenUnderflows(p);
    CorrectedRoundTrip(gs);
  }

  /** A text after one space lexes the same both ways, and as its scan from
      the first character after the space. */
  lemma LeadingSpace(p: string, r: Result<seq<seq<Token>>>)
    requires ScansTo(" " + p + " ", 1, [[]], r)
    ensures Tokenize(" " + p, false) == r && Tokenize(" " + p, true) == r
  {
    var s := " " + p + " ";
    assert s[0] == ' ';
    ScanSpace(s, 0, [[]], r);
    AsWrittenAgrees(" " + p);
  }

  /** Past the leading space, the text scans into the groups. */
  lemma ProgramScans(gs: seq<seq<Token>>)
    requires |gs| > 0 && forall j :: 0 <= j < |gs| ==> AllSpellable(gs[j])
    ensures Scan(" " + SpellProgram(gs) + " ", 1, [[]], false) == Ok(gs)
  {
    PaddedProgram(SpellProgram(gs), gs);
  }

  lemma PaddedProgram(p: string, gs: seq<seq<Token>>)
    requires |gs| > 0 && forall j :: 0 <= j < |gs| ==> AllSpellable(gs[j])
    requires p == SpellProgram(gs)
    ensures Scan(" " + p + " ", 1, [[]], false) == Ok(gs)
  {
    FromOneGroup(gs);
    Padded(p);
    ScanProgram(" " + p + " ", 1, [[]], gs, 1 + |p|);
  }

  /** Where a text is inside itself padded with one space each side. */
  lemma Padded(p: string)
    ensures At(" " + p + " ", 1, p)
    ensures Blank(" " + p + " ", 1 + |p|)
  {
    AtPlaced(" ", p, " ");
  }

  lemma FromOneGroup(gs: seq<seq<Token>>)
    requires |gs| > 0
    ensures AppendAll([[]], gs[0]) + gs[1..] == gs
  {
    var empty: seq<seq<Token>> := [[]];
    assert empty[..0] == [];
    assert empty[0] + gs[0] == gs[0];
  }

  /** Both behaviours agree after the first character. */
  lemma {:induction false} ScanAgrees(s: string, i: nat, groups: seq<seq<Token>>)
    requires 0 < i <= |s| && |groups| > 0
    decreases |s| - i
    ensures Scan(s, i, groups, true) == Scan(s, i, groups, false)
  {
    if i < |s| {
      assert Lex1(s, i, groups, true) == Lex1(s, i, groups, false);
      if Lex1(s, i, groups, false).Ok? {
        var (j, next) := Lex1(s, i, groups, false).value;
        ScanAgrees(s, j, next);
      }
    }
  }

  /** A text that does not start with an identifier or a number lexes the same
      either way. */
  lemma AsWrittenAgrees(src: string)
    requires |src| == 0 || !(IsIdentStart(src[0]) || IsNumberChar(src[0]))
    ensures Tokenize(src, true) == Tokenize(src, false)
  {
    var s := src + " ";
    assert s[0] == if |src| == 0 then ' ' else src[0];
    assert Lex1(s, 0, [[]], true) == Lex1(s, 0, [[]], false);
    if Lex1(s, 0, [[]], false).Ok? {
      var (j, next) := Lex1(s, 0, [[]], false).value;
      ScanStep(s, 0, [[]], true);
      ScanStep(s, 0, [[]], false);
      ScanAgrees(s, j, next);
    } else {
      ScanFails(s, 0, [[]], true);
      ScanFails(s, 0, [[]], false);
    }
  }

  /** As written, a text that starts with an identifier or a number (every
      `let` program does) fails; the intended lexer reads it. */
  lemma AsWrittenUnderflows(src: string)
    requires |src| > 0 && (IsIdentStart(src[0]) || IsNumberChar(src[0]))
    ensures Tokenize(src, true) == Err(SUBTRACT_OVERFLOW)
  {
    assert (src + " ")[0] == src[0];
    ScanFails(src + " ", 0, [[]], true);
  }

  /** `//` drops everything up to and including the next newline. */
  lemma CommentSkipped(s: string, i: nat, groups: seq<seq<Token>>, asWritten: bool)
    requires i + 1 < |s| && |groups| > 0 && s[i] == '/' && s[i + 1] == '/'
    ensures Lex1(s, i, groups, asWritten) == Ok((CommentEnd(s, i + 1), groups))
  {
  }

  /** A run of number characters is an `Int` without a point, a `Float` with
      one, and an error with more. */
  lemma NumberKinds(s: string, i: nat, groups: seq<seq<Token>>)
    requires 0 < i < |s| && |groups| > 0 && IsNumberChar(s[i])
    ensures var text := Grab(s, i, NumberRun);
      var r := Lex1(s, i, groups, false);
      Floats.DotCount(text) > 1 ==> r == Err(ONE_POINT)
    ensures var text := Grab(s, i, NumberRun);
      var r := Lex1(s, i, groups, false);
      r.Ok? ==>
        r.value.0 == i + |text| && r.value.1 == AddToken(groups, r.value.1[|groups| - 1][|groups[|groups| - 1]|])
        && (Floats.DotCount(text) == 0 <==> r.value.1[|groups| - 1][|groups[|groups| - 1]|].Int?)
        && (Floats.DotCount(text) == 1 <==> r.value.1[|groups| - 1][|groups[|groups| - 1]|].Float?)
  {
  }
}
