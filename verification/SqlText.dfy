/** The text of compiled statements, as tokens: how each dialect spells them, and a lexer
    that reads any such text back. */
module SqlText {
  import opened Prelude
  import ColdNames

  datatype Dialect = Postgres | MySql | SqlServer

  datatype Token =
    | Space | Star | Dot | Comma | Open | Close
    | Word(word: string)
    | Name(name: string)
    | Op(symbol: string)
    | Number(value: nat)
    | Hole(index: Option<nat>)

  // -------------------------------------------------------------- characters

  predicate IsLetter(c: char)
  {
    'a' <= c <= 'z' || 'A' <= c <= 'Z'
  }

  predicate IsUpper(c: char)
  {
    'A' <= c <= 'Z'
  }

  predicate IsDigit(c: char)
  {
    '0' <= c <= '9'
  }

  predicate IsNameChar(c: char)
  {
    IsLetter(c) || IsDigit(c) || c == '_' || c == '$'
  }

  predicate IsOpChar(c: char)
  {
    c == '<' || c == '=' || c == '>'
  }

  /** `is_valid_identifier`. */
  predicate IsIdentifier(s: string)
  {
    && s != ""
    && (IsLetter(s[0]) || s[0] == '_')
    && forall i :: 1 <= i < |s| ==> IsNameChar(s[i])
  }

  function OpenQuote(d: Dialect): char
  {
    match d case Postgres => '"' case MySql => '`' case SqlServer => '['
  }

  function CloseQuote(d: Dialect): char
  {
    match d case Postgres => '"' case MySql => '`' case SqlServer => ']'
  }

  // ---------------------------------------------------------------- spelling

  /** Decimal without leading zeros. */
  function Decimal(n: nat): (s: string)
    ensures s != "" && forall i :: 0 <= i < |s| ==> IsDigit(s[i])
  {
    if n < 10 then [ColdNames.Digit(n)] else Decimal(n / 10) + [ColdNames.Digit(n % 10)]
  }

  lemma {:induction false} DecimalParses(n: nat)
    ensures ColdNames.ParseDecimal(Decimal(n)) == Some(n)
  {
    var s := Decimal(n);
    if n >= 10 {
      DecimalParses(n / 10);
      assert s[..|s| - 1] == Decimal(n / 10);
    } else {
      assert s[..|s| - 1] == "";
    }
  }

  function Placeholder(d: Dialect, index: Option<nat>): string
  {
    match (d, index)
    case (Postgres, Some(n)) => "$" + Decimal(n)
    case (SqlServer, Some(n)) => "@P" + Decimal(n)
    case _ => "?"
  }

  function Spell(d: Dialect, t: Token): string
  {
    match t
    case Space => " "
    case Star => "*"
    case Dot => "."
    case Comma => ","
    case Open => "("
    case Close => ")"
    case Word(w) => w
    case Name(n) => [OpenQuote(d)] + n + [CloseQuote(d)]
    case Op(o) => o
    case Number(n) => Decimal(n)
    case Hole(index) => Placeholder(d, index)
  }

  function Text(d: Dialect, ts: seq<Token>): string
  {
    if ts == [] then "" else Spell(d, ts[0]) + Text(d, ts[1..])
  }

  lemma {:induction false} TextConcat(d: Dialect, a: seq<Token>, b: seq<Token>)
    ensures Text(d, a + b) == Text(d, a) + Text(d, b)
  {
    if a == [] {
      assert a + b == b;
      assert Text(d, a) == "";
    } else {
      assert (a + b)[1..] == a[1..] + b && (a + b)[0] == a[0];
      TextConcat(d, a[1..], b);
    }
  }

  // ------------------------------------------------------------ well-formed

  const OPERATORS: set<string> := {"=", "<>", ">", ">=", "<", "<="}

  predicate IsKeyword(w: string)
  {
    w != "" && forall i :: 0 <= i < |w| ==> IsUpper(w[i])
  }

  predicate ValidToken(d: Dialect, t: Token)
  {
    match t
    case Word(w) => IsKeyword(w)
    case Name(n) => IsIdentifier(n)
    case Op(o) => o in OPERATORS
    case Hole(index) => index.Some? <==> d != MySql
    case _ => true
  }

  /** Tokens that a following character could lengthen. */
  predicate Sticky(t: Token)
  {
    t.Word? || t.Op? || t.Number? || (t.Hole? && t.index.Some?)
  }

  predicate Printable(d: Dialect, ts: seq<Token>)
  {
    && (forall i :: 0 <= i < |ts| ==> ValidToken(d, ts[i]))
    && forall i :: 0 <= i < |ts| - 1 ==> !(Sticky(ts[i]) && Sticky(ts[i + 1]))
  }

  // ------------------------------------------------------------------ lexing

  datatype Class = Upper | Digits | Ops | Names

  predicate InClass(k: Class, c: char)
  {
    match k case Upper => IsUpper(c) case Digits => IsDigit(c) case Ops => IsOpChar(c) case Names => IsNameChar(c)
  }

  /** Length of the leading run of a class. */
  function RunLength(k: Class, s: string): (n: nat)
    ensures n <= |s|
  {
    if s == "" || !InClass(k, s[0]) then 0 else 1 + RunLength(k, s[1..])
  }

  /** The first token of the text and how many characters it takes. */
  function LexOne(d: Dialect, s: string): Option<(Token, nat)>
    requires s != ""
  {
    var c := s[0];
    if c == ' ' then Some((Space, 1))
    else if c == '*' then Some((Star, 1))
    else if c == '.' then Some((Dot, 1))
    else if c == ',' then Some((Comma, 1))
    else if c == '(' then Some((Open, 1))
    else if c == ')' then Some((Close, 1))
    else if c == OpenQuote(d) then
      var n := RunLength(Names, s[1..]);
      if n + 1 < |s| && s[n + 1] == CloseQuote(d) then Some((Name(s[1..n + 1]), n + 2)) else None
    else if IsUpper(c) then Some((Word(s[..RunLength(Upper, s)]), RunLength(Upper, s)))
    else if IsOpChar(c) then Some((Op(s[..RunLength(Ops, s)]), RunLength(Ops, s)))
    else if IsDigit(c) then
      match ColdNames.ParseDecimal(s[..RunLength(Digits, s)])
      case Some(v) => Some((Number(v), RunLength(Digits, s)))
      case None => None
    else LexHole(d, s)
  }

  function LexHole(d: Dialect, s: string): Option<(Token, nat)>
    requires s != ""
  {
    match d
    case MySql => if s[0] == '?' then Some((Hole(None), 1)) else None
    case Postgres => if s[0] == '$' then LexIndex(s[1..], 1) else None
    case SqlServer => if |s| > 1 && s[0] == '@' && s[1] == 'P' then LexIndex(s[2..], 2) else None
  }

  /** The digits of a placeholder whose first `skip` characters are already read. */
  function LexIndex(tail: string, skip: nat): Option<(Token, nat)>
  {
    var n := RunLength(Digits, tail);
    match ColdNames.ParseDecimal(tail[..n])
    case Some(v) => Some((Hole(Some(v)), skip + n))
    case None => None
  }

  function Lex(d: Dialect, s: string): Option<seq<Token>>
    decreases |s|
  {
    if s == "" then Some([]) else
    match LexOne(d, s)
    case None => None
    case Some((t, n)) =>
      if n == 0 || n > |s| then None else
      match Lex(d, s[n..])
      case None => None
      case Some(ts) => Some([t] + ts)
  }

  // --------------------------------------------------------------- round trip

  lemma {:induction false} RunStops(k: Class, s: string, rest: string)
    requires forall i :: 0 <= i < |s| ==> InClass(k, s[i])
    requires rest == "" || !InClass(k, rest[0])
    ensures RunLength(k, s + rest) == |s|
  {
    if s == "" {
      assert s + rest == rest;
    } else {
      assert (s + rest)[1..] == s[1..] + rest;
      RunStops(k, s[1..], rest);
    }
  }

  /** What may come after a token without lengthening it. */
  predicate Apart(t: Token, rest: string)
  {
    Sticky(t) && rest != "" ==> !IsUpper(rest[0]) && !IsOpChar(rest[0]) && !IsDigit(rest[0])
  }

  lemma LexIndexRun(w: string, n: nat, skip: nat, rest: string)
    requires ColdNames.ParseDecimal(w) == Some(n) && RunLength(Digits, w + rest) == |w|
    ensures LexIndex(w + rest, skip) == Some((Hole(Some(n)), skip + |w|))
  {
    hide RunLength, ColdNames.ParseDecimal;
    assert (w + rest)[..|w|] == w;
  }

  lemma LexIndexReads(n: nat, skip: nat, rest: string)
    requires rest == "" || !IsDigit(rest[0])
    ensures LexIndex(Decimal(n) + rest, skip) == Some((Hole(Some(n)), skip + |Decimal(n)|))
  {
    hide LexIndex;
    DecimalParses(n);
    RunStops(Digits, Decimal(n), rest);
    LexIndexRun(Decimal(n), n, skip, rest);
  }

  lemma LexWordLike(d: Dialect, t: Token, rest: string)
    requires (t.Word? || t.Op? || t.Number?) && ValidToken(d, t) && Apart(t, rest)
    ensures LexOne(d, Spell(d, t) + rest) == Some((t, |Spell(d, t)|))
  {
    var w := Spell(d, t);
    var s := w + rest;
    assert s[..|w|] == w;
    match t
    case Word(_) => RunStops(Upper, w, rest);
    case Op(_) => RunStops(Ops, w, rest);
    case Number(n) =>
      DecimalParses(n);
      RunStops(Digits, w, rest);
  }

  lemma LexName(d: Dialect, name: string, rest: string)
    requires IsIdentifier(name)
    ensures LexOne(d, Spell(d, Name(name)) + rest) == Some((Name(name), |name| + 2))
  {
    var s := Spell(d, Name(name)) + rest;
    assert s[1..] == name + ([CloseQuote(d)] + rest);
    RunStops(Names, name, [CloseQuote(d)] + rest);
    assert s[1..|name| + 1] == name;
  }

  lemma LexHoleReads(d: Dialect, index: Option<nat>, rest: string)
    requires ValidToken(d, Hole(index)) && Apart(Hole(index), rest)
    ensures LexOne(d, Spell(d, Hole(index)) + rest) == Some((Hole(index), |Spell(d, Hole(index))|))
  {
    hide Decimal, LexIndex, RunLength;
    match d
    case MySql =>
    case Postgres =>
      LexIndexReads(index.value, 1, rest);
      assert ("$" + Decimal(index.value) + rest)[1..] == Decimal(index.value) + rest;
    case SqlServer =>
      LexIndexReads(index.value, 2, rest);
      assert ("@P" + Decimal(index.value) + rest)[2..] == Decimal(index.value) + rest;
  }

  /** Every spelled token is read back, whatever follows it apart. */
  lemma LexOneReads(d: Dialect, t: Token, rest: string)
    requires ValidToken(d, t) && Apart(t, rest)
    ensures Spell(d, t) != "" && LexOne(d, Spell(d, t) + rest) == Some((t, |Spell(d, t)|))
  {
    match t
    case Word(_) => LexWordLike(d, t, rest);
    case Op(_) => LexWordLike(d, t, rest);
    case Number(_) => LexWordLike(d, t, rest);
    case Name(n) => LexName(d, n, rest);
    case Hole(index) => LexHoleReads(d, index, rest);
    case _ =>
  }

  /** What is not sticky starts with a character that lengthens nothing. */
  lemma StartsApart(d: Dialect, t: Token, ts: seq<Token>)
    requires ts != [] ==> ValidToken(d, ts[0]) && !(Sticky(t) && Sticky(ts[0]))
    ensures Apart(t, Text(d, ts))
  {
    if ts != [] && Sticky(t) {
      assert Text(d, ts)[0] == Spell(d, ts[0])[0];
    }
  }

  /** Lexing inverts printing: the text of a statement determines its tokens, so nothing
      inside a quoted name, an operator or a placeholder can be read as anything else. */
  lemma {:induction false} LexInvertsText(d: Dialect, ts: seq<Token>)
    requires Printable(d, ts)
    ensures Lex(d, Text(d, ts)) == Some(ts)
    decreases |ts|
  {
    if ts != [] {
      var rest := Text(d, ts[1..]);
      assert ts[1..] != [] ==> ts[1..][0] == ts[0 + 1];
      StartsApart(d, ts[0], ts[1..]);
      LexOneReads(d, ts[0], rest);
      hide LexOne, Spell, ValidToken, Sticky, Apart;
      var s := Spell(d, ts[0]) + rest;
      assert s[|Spell(d, ts[0])|..] == rest;
      LexInvertsText(d, ts[1..]);
      assert [ts[0]] + ts[1..] == ts;
    }
  }
}
