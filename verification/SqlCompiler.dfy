/** The builder itself: it pushes text and parameters piece by piece, and what it has pushed
    at the end is the text of the specification's meaning. */
module SqlCompiler {
  import opened Prelude
  import opened SqlText
  import opened SqlGrammar
  import opened SqlBuilder

  // ------------------------------------------------------------ joined text

  function JoinStrings(parts: seq<string>, sep: string): string
  {
    if parts == [] then "" else if |parts| == 1 then parts[0]
    else parts[0] + (sep + JoinStrings(parts[1..], sep))
  }

  /** `parts` are the texts of `xs`, one by one. */
  ghost predicate Texts<X>(d: Dialect, parts: seq<string>, xs: seq<X>, emit: X -> seq<Token>)
  {
    |parts| == |xs| && forall i :: 0 <= i < |xs| ==> parts[i] == Text(d, emit(xs[i]))
  }

  lemma {:induction false} JoinedText<X>(d: Dialect, parts: seq<string>, xs: seq<X>, emit: X -> seq<Token>,
                                         sep: seq<Token>)
    requires Texts(d, parts, xs, emit)
    ensures JoinStrings(parts, Text(d, sep)) == Text(d, PrintSep(xs, emit, sep))
    decreases |xs|
  {
    if |xs| > 1 {
      hide Text;
      assert Texts(d, parts[1..], xs[1..], emit);
      JoinedText(d, parts[1..], xs[1..], emit, sep);
      var tail := PrintSep(xs[1..], emit, sep);
      TextConcat(d, sep, tail);
      TextConcat(d, emit(xs[0]), sep + tail);
    } else if xs == [] {
      assert parts == [];
    }
  }

  lemma Texts1(d: Dialect, a: Token)
    ensures Text(d, [a]) == Spell(d, a)
  {
    assert [a][1..] == [];
    assert Spell(d, a) + "" == Spell(d, a);
  }

  lemma TextCons(d: Dialect, a: Token, ts: seq<Token>)
    ensures Text(d, [a] + ts) == Spell(d, a) + Text(d, ts)
  {
    assert ([a] + ts)[1..] == ts;
  }

  lemma Texts2(d: Dialect, a: Token, b: Token)
    ensures Text(d, [a, b]) == Spell(d, a) + Spell(d, b)
  {
    hide Spell;
    Texts1(d, b);
    TextCons(d, a, [b]);
    assert [a] + [b] == [a, b];
  }

  lemma Texts3(d: Dialect, a: Token, b: Token, c: Token)
    ensures Text(d, [a, b, c]) == Spell(d, a) + Spell(d, b) + Spell(d, c)
  {
    hide Spell, Text;
    Texts2(d, b, c);
    TextCons(d, a, [b, c]);
    assert [a] + [b, c] == [a, b, c];
  }

  lemma Texts4(d: Dialect, a: Token, b: Token, c: Token, e: Token)
    ensures Text(d, [a, b, c, e]) == Spell(d, a) + Spell(d, b) + Spell(d, c) + Spell(d, e)
  {
    hide Spell, Text;
    Texts3(d, b, c, e);
    TextCons(d, a, [b, c, e]);
    assert [a] + [b, c, e] == [a, b, c, e];
  }

  // ------------------------------------------------------------- identifiers

  lemma CommaText(d: Dialect)
    ensures Text(d, COMMA) == ", " && Text(d, [Dot]) == "."
  {
    Texts2(d, Comma, Space);
    Texts1(d, Dot);
  }

  lemma MapAllIs<X, Y>(xs: seq<X>, f: X -> Option<Y>, ys: seq<Y>)
    requires |ys| == |xs| && forall i :: 0 <= i < |xs| ==> f(xs[i]) == Some(ys[i])
    ensures MapAll(xs, f) == Some(ys)
  {
    var all := MapAll(xs, f);
    assert all.Some?;
    forall i | 0 <= i < |xs|
      ensures all.value[i] == ys[i]
    {
      assert f(xs[i]) == Some(all.value[i]);
    }
    assert all.value == ys;
  }

  /** Quotes a dotted identifier segment by segment. */
  method Quote(d: Dialect, identifier: string) returns (r: Option<string>)
    ensures r.Some? <==> PathOf(identifier).Some?
    ensures r.Some? ==> r.value == Text(d, PathTokens(PathOf(identifier).value))
  {
    hide Trim, IsIdentifier, MapAll;
    var segments := Split(identifier);
    var parts: seq<string> := [];
    ghost var path: Path := [];
    hide Split, Text;
    for i := 0 to |segments|
      invariant |path| == i && forall k :: 0 <= k < i ==> SegmentOf(segments[k]) == Some(path[k])
      invariant Texts(d, parts, path, SegmentTokens)
    {
      var segment := Trim(segments[i]);
      if segment == "*" {
        parts := parts + ["*"];
        path := path + [Any];
        Texts1(d, Star);
      } else if !IsIdentifier(segment) {
        assert SegmentOf(segments[i]).None?;
        return None;
      } else {
        parts := parts + [[OpenQuote(d)] + segment + [CloseQuote(d)]];
        path := path + [Named(segment)];
        Texts1(d, Name(segment));
      }
    }
    MapAllIs(segments, SegmentOf, path);
    JoinedText(d, parts, path, SegmentTokens, [Dot]);
    CommaText(d);
    return Some(JoinStrings(parts, "."));
  }

  method QuoteAll(d: Dialect, identifiers: seq<string>) returns (r: Option<string>)
    ensures r.Some? <==> MapAll(identifiers, PathOf).Some?
    ensures r.Some? ==> r.value == Text(d, PrintSep(MapAll(identifiers, PathOf).value, PathTokens, COMMA))
  {
    var parts: seq<string> := [];
    ghost var paths: seq<Path> := [];
    hide PathOf, Text, PathTokens;
    for i := 0 to |identifiers|
      invariant |paths| == i && forall k :: 0 <= k < i ==> PathOf(identifiers[k]) == Some(paths[k])
      invariant Texts(d, parts, paths, PathTokens)
    {
      var quoted := Quote(d, identifiers[i]);
      if quoted.None? {
        assert PathOf(identifiers[i]).None?;
        return None;
      }
      parts := parts + [quoted.value];
      paths := paths + [PathOf(identifiers[i]).value];
    }
    MapAllIs(identifiers, PathOf, paths);
    JoinedText(d, parts, paths, PathTokens, COMMA);
    CommaText(d);
    return Some(JoinStrings(parts, ", "));
  }

  lemma {:induction false} PathConcat(p: Path, q: Path)
    requires p != [] && q != []
    ensures PathTokens(p + q) == PathTokens(p) + ([Dot] + PathTokens(q))
    decreases |p|
  {
    assert (p + q)[0] == p[0];
    if |p| == 1 {
      assert (p + q)[1..] == q;
    } else {
      assert (p + q)[1..] == p[1..] + q;
      PathConcat(p[1..], q);
      assert SegmentTokens(p[0]) + ([Dot] + (PathTokens(p[1..]) + ([Dot] + PathTokens(q))))
          == (SegmentTokens(p[0]) + ([Dot] + PathTokens(p[1..]))) + ([Dot] + PathTokens(q));
    }
  }

  lemma TwoPathsText(d: Dialect, p: Path, q: Path)
    requires p != [] && q != []
    ensures Text(d, PathTokens(p + q)) == Text(d, PathTokens(p)) + "." + Text(d, PathTokens(q))
  {
    PathConcat(p, q);
    CommaText(d);
    TextConcat(d, [Dot], PathTokens(q));
    TextConcat(d, PathTokens(p), [Dot] + PathTokens(q));
    hide Text, PathTokens;
  }

  method QuoteSource(d: Dialect, source: QuerySource) returns (r: Option<string>)
    ensures r.Some? <==> SourceOf(source).Some?
    ensures r.Some? ==> r.value == Text(d, PathTokens(SourceOf(source).value))
  {
    hide PathOf, Text, PathTokens, Trim;
    if source.schema.Some? && Trim(source.schema.value) != "" {
      var schema := Quote(d, source.schema.value);
      if schema.None? {
        return None;
      }
      var table := Quote(d, source.table);
      if table.None? {
        return None;
      }
      PathsAreNonEmpty(source.schema.value);
      PathsAreNonEmpty(source.table);
      TwoPathsText(d, PathOf(source.schema.value).value, PathOf(source.table).value);
      return Some(schema.value + "." + table.value);
    }
    r := Quote(d, source.table);
  }

  lemma PathsAreNonEmpty(identifier: string)
    ensures PathOf(identifier).Some? ==> PathOf(identifier).value != []
  {
  }

  // ----------------------------------------------------------------- filters

  lemma ClauseText(d: Dialect, c: Clause)
    requires c.field != []
    ensures Text(d, ClauseTokens(d, c)) == Text(d, PathTokens(c.field)) + Text(d, ClauseTail(d, c))
  {
    TextConcat(d, PathTokens(c.field), ClauseTail(d, c));
  }

  lemma CompareText(d: Dialect, c: Clause)
    requires c.Compare? || c.Like?
    ensures Text(d, ClauseTail(d, c)) ==
      " " + (if c.Compare? then c.symbol else LikeWord(d)) + " " + Placeholder(d, c.hole)
  {
    var word := if c.Compare? then Op(c.symbol) else Word(LikeWord(d));
    Texts4(d, Space, word, Space, Hole(c.hole));
    assert Spell(d, Space) == " " && Spell(d, Hole(c.hole)) == Placeholder(d, c.hole);
    hide Text, Placeholder;
  }

  lemma IsNullText(d: Dialect, p: Path)
    ensures Text(d, ClauseTail(d, IsNull(p))) == " IS NULL"
  {
    Texts4(d, Space, Word("IS"), Space, Word("NULL"));
    hide Text;
    assert " " + "IS" + " " + "NULL" == " IS NULL";
  }

  lemma IsNotNullText(d: Dialect, p: Path)
    ensures Text(d, ClauseTail(d, IsNotNull(p))) == " IS NOT NULL"
  {
    var head, tail := [Space, Word("IS"), Space, Word("NOT")], [Space, Word("NULL")];
    Texts4(d, Space, Word("IS"), Space, Word("NOT"));
    Texts2(d, Space, Word("NULL"));
    TextConcat(d, head, tail);
    hide Text;
    assert ClauseTail(d, IsNotNull(p)) == head + tail;
    assert " " + "IS" + " " + "NOT" + (" " + "NULL") == " IS NOT NULL";
  }

  lemma InText(d: Dialect, c: Clause, parts: seq<string>)
    requires c.In? && Texts(d, parts, c.holes, HoleTokens)
    ensures Text(d, ClauseTail(d, c)) == " IN (" + JoinStrings(parts, ", ") + ")"
  {
    var head := [Space, Word("IN"), Space, Open];
    var body := PrintSep(c.holes, HoleTokens, COMMA);
    JoinedText(d, parts, c.holes, HoleTokens, COMMA);
    CommaText(d);
    Texts4(d, Space, Word("IN"), Space, Open);
    Texts1(d, Close);
    TextConcat(d, head + body, [Close]);
    TextConcat(d, head, body);
    assert ClauseTail(d, c) == head + body + [Close];
    assert " " + "IN" + " " + "(" == " IN (";
    hide Text, PrintSep, JoinStrings;
  }

  /** Appends a value and answers its placeholder. */
  method Bind(d: Dialect, parameters: seq<Value>, value: Value) returns (placeholder: string, parameters': seq<Value>)
    ensures parameters' == parameters + [value]
    ensures placeholder == Placeholder(d, HoleAt(d, |parameters'|))
  {
    parameters' := parameters + [value];
    match d
    case Postgres => placeholder := "$" + Decimal(|parameters'|);
    case MySql => placeholder := "?";
    case SqlServer => placeholder := "@P" + Decimal(|parameters'|);
  }

  method BindAll(d: Dialect, parameters: seq<Value>, items: seq<Value>) returns (parts: seq<string>,
        parameters': seq<Value>)
    ensures parameters' == parameters + items
    ensures Texts(d, parts, HolesFrom(d, |parameters|, |items|), HoleTokens)
  {
    parts, parameters' := [], parameters;
    hide Text, Placeholder, HoleAt;
    for i := 0 to |items|
      invariant parameters' == parameters + items[..i]
      invariant |parts| == i && forall k :: 0 <= k < i ==>
          parts[k] == Text(d, HoleTokens(HoleAt(d, |parameters| + k + 1)))
    {
      var placeholder;
      placeholder, parameters' := Bind(d, parameters', items[i]);
      HoleText(d, HoleAt(d, |parameters'|));
      parts := parts + [placeholder];
      assert parameters + items[..i] + [items[i]] == parameters + items[..i + 1];
    }
    assert items[..|items|] == items;
  }

  lemma HoleText(d: Dialect, index: Option<nat>)
    ensures Text(d, HoleTokens(index)) == Placeholder(d, index)
  {
    Texts1(d, Hole(index));
  }

  method CompileFilter(d: Dialect, f: QueryFilter, parameters: seq<Value>)
    returns (clause: Option<string>, parameters': seq<Value>)
    ensures clause.Some? <==> FilterOf(d, f, |parameters|).Some?
    ensures clause.Some? ==>
      && clause.value == Text(d, ClauseTokens(d, FilterOf(d, f, |parameters|).value.0))
      && parameters' == parameters + FilterOf(d, f, |parameters|).value.1
  {
    hide PathOf, Text, PathTokens, Placeholder, HoleAt, HolesFrom, ScalarString, ClauseTokens, ClauseTail;
    parameters' := parameters;
    var field := Quote(d, f.field);
    if field.None? {
      return None, parameters;
    }
    PathsAreNonEmpty(f.field);
    if f.value == Null && !NullAllowed(f.operator) {
      return None, parameters;
    }
    ghost var p := PathOf(f.field).value;
    ghost var hole := HoleAt(d, |parameters| + 1);
    var placeholder;
    if f.value == Null && f.operator == Eq {
      ClauseText(d, IsNull(p));
      IsNullText(d, p);
      return Some(field.value + " IS NULL"), parameters + [];
    }
    if f.value == Null && f.operator == NotEq {
      ClauseText(d, IsNotNull(p));
      IsNotNullText(d, p);
      return Some(field.value + " IS NOT NULL"), parameters + [];
    }
    match f.operator {
      case IsNullOp =>
        ClauseText(d, IsNull(p));
        IsNullText(d, p);
        return Some(field.value + " IS NULL"), parameters + [];
      case IsNotNullOp =>
        ClauseText(d, IsNotNull(p));
        IsNotNullText(d, p);
        return Some(field.value + " IS NOT NULL"), parameters + [];
      case Contains =>
        placeholder, parameters' := Bind(d, parameters, Str("%" + ScalarString(f.value) + "%"));
        ClauseText(d, Like(p, hole));
        CompareText(d, Like(p, hole));
        return Some(field.value + (" " + LikeWord(d) + " " + placeholder)), parameters';
      case StartsWith =>
        placeholder, parameters' := Bind(d, parameters, Str(ScalarString(f.value) + "%"));
        ClauseText(d, Like(p, hole));
        CompareText(d, Like(p, hole));
        return Some(field.value + (" " + LikeWord(d) + " " + placeholder)), parameters';
      case InList =>
        if !f.value.Array? || f.value.items == [] || exists i :: 0 <= i < |f.value.items| && f.value.items[i] == Null {
          return None, parameters;
        }
        var parts;
        parts, parameters' := BindAll(d, parameters, f.value.items);
        ghost var c := In(p, HolesFrom(d, |parameters|, |f.value.items|));
        ClauseText(d, c);
        InText(d, c, parts);
        return Some(field.value + (" IN (" + JoinStrings(parts, ", ") + ")")), parameters';
      case op =>
        placeholder, parameters' := Bind(d, parameters, f.value);
        ClauseText(d, Compare(p, Symbol(op), hole));
        CompareText(d, Compare(p, Symbol(op), hole));
        return Some(field.value + (" " + Symbol(op) + " " + placeholder)), parameters';
    }
  }

  // --------------------------------------------------------------- statements

  ghost function WhereText(d: Dialect, cs: seq<Clause>): string
  {
    Text(d, PrintSection(WHERE, cs, (c: Clause) => ClauseTokens(d, c), AND))
  }

  ghost function Extended(d: Dialect, before: Option<(seq<Clause>, seq<Value>)>, f: QueryFilter)
    : Option<(seq<Clause>, seq<Value>)>
  {
    if before.None? then None else
    var last := FilterOf(d, f, |before.value.1|);
    if last.None? then None else Some((before.value.0 + [last.value.0], before.value.1 + last.value.1))
  }

  method CompileFilters(d: Dialect, fs: seq<QueryFilter>) returns (r: Option<string>, parameters: seq<Value>)
    requires fs != []
    ensures r.Some? <==> FiltersOf(d, fs).Some?
    ensures r.Some? ==> parameters == FiltersOf(d, fs).value.1 && r.value == WhereText(d, FiltersOf(d, fs).value.0)
  {
    var emit := (c: Clause) => ClauseTokens(d, c);
    var clauses: seq<string> := [];
    ghost var trees: seq<Clause> := [];
    parameters := [];
    hide Text, ClauseTokens, FilterOf;
    assert fs[..0] == [];
    for i := 0 to |fs|
      invariant FiltersOf(d, fs[..i]) == Some((trees, parameters))
      invariant Texts(d, clauses, trees, emit) && |trees| == i
    {
      FiltersStep(d, fs, i);
      var clause;
      clause, parameters := CompileFilter(d, fs[i], parameters);
      if clause.None? {
        FiltersFail(d, fs, i + 1);
        return None, parameters;
      }
      trees := trees + [FilterOf(d, fs[i], |FiltersOf(d, fs[..i]).value.1|).value.0];
      clauses := clauses + [clause.value];
    }
    assert fs[..|fs|] == fs;
    JoinedText(d, clauses, trees, emit, AND);
    AndText(d);
    SectionText(d, WHERE, " WHERE ", trees, emit, AND);
    return Some(" WHERE " + JoinStrings(clauses, " AND ")), parameters;
  }

  lemma FiltersStep(d: Dialect, fs: seq<QueryFilter>, i: nat)
    requires i < |fs|
    ensures FiltersOf(d, fs[..i + 1]) == Extended(d, FiltersOf(d, fs[..i]), fs[i])
  {
    assert fs[..i + 1][..i] == fs[..i];
  }

  lemma {:induction false} FiltersFail(d: Dialect, fs: seq<QueryFilter>, i: nat)
    requires i <= |fs| && FiltersOf(d, fs[..i]).None?
    ensures FiltersOf(d, fs).None?
    decreases |fs| - i
  {
    if i == |fs| {
      assert fs[..i] == fs;
    } else {
      FiltersStep(d, fs, i);
      FiltersFail(d, fs, i + 1);
    }
  }

  lemma SectionText<X>(d: Dialect, header: seq<Token>, text: string, xs: seq<X>, emit: X -> seq<Token>, sep: seq<Token>)
    requires xs != [] && Text(d, header) == text
    ensures Text(d, PrintSection(header, xs, emit, sep)) == text + Text(d, PrintSep(xs, emit, sep))
  {
    TextConcat(d, header, PrintSep(xs, emit, sep));
  }

  lemma AndText(d: Dialect)
    ensures Text(d, AND) == " AND " && Text(d, WHERE) == " WHERE " && Text(d, LIMIT) == " LIMIT "
  {
    Texts3(d, Space, Word("AND"), Space);
    Texts3(d, Space, Word("WHERE"), Space);
    Texts3(d, Space, Word("LIMIT"), Space);
    hide Text;
    assert " " + "AND" + " " == " AND " && " " + "WHERE" + " " == " WHERE " && " " + "LIMIT" + " " == " LIMIT ";
  }

  lemma ByText(d: Dialect, word: string)
    ensures Text(d, [Space, Word(word), Space, Word("BY"), Space]) == " " + word + " BY "
  {
    var head := [Space, Word(word), Space, Word("BY")];
    Texts4(d, Space, Word(word), Space, Word("BY"));
    Texts1(d, Space);
    TextConcat(d, head, [Space]);
    hide Text;
    assert head + [Space] == [Space, Word(word), Space, Word("BY"), Space];
    assert " " + word + " " + "BY" + " " == " " + word + " BY ";
  }

  // ------------------------------------------------------------------- joins

  lemma SpacedText(d: Dialect, symbol: string, p: Path)
    ensures Text(d, [Space, Word(symbol), Space] + PathTokens(p)) == " " + symbol + " " + Text(d, PathTokens(p))
    ensures Text(d, [Space, Op(symbol), Space] + PathTokens(p)) == " " + symbol + " " + Text(d, PathTokens(p))
  {
    Texts3(d, Space, Word(symbol), Space);
    Texts3(d, Space, Op(symbol), Space);
    TextConcat(d, [Space, Word(symbol), Space], PathTokens(p));
    TextConcat(d, [Space, Op(symbol), Space], PathTokens(p));
  }

  lemma JoinText(d: Dialect, j: Join)
    ensures Text(d, JoinTokens(j)) ==
      " " + KindWord(j.kind) + " JOIN " + Text(d, PathTokens(j.target))
      + (" ON " + Text(d, PathTokens(j.left))) + (" = " + Text(d, PathTokens(j.right)))
  {
    var a := [Space, Word(KindWord(j.kind))];
    var b := [Space, Word("JOIN"), Space] + PathTokens(j.target);
    var c := [Space, Word("ON"), Space] + PathTokens(j.left);
    var e := [Space, Op("="), Space] + PathTokens(j.right);
    Texts2(d, Space, Word(KindWord(j.kind)));
    SpacedText(d, "JOIN", j.target);
    SpacedText(d, "ON", j.left);
    SpacedText(d, "=", j.right);
    hide Text, PathTokens, KindWord;
    TextConcat(d, a, b);
    TextConcat(d, a + b, c);
    TextConcat(d, (a + b) + c, e);
    assert JoinTokens(j) == ((a + b) + c) + e;
    assert " " + "JOIN" + " " == " JOIN " && " " + "ON" + " " == " ON " && " " + "=" + " " == " = ";
  }

  lemma {:induction false} JoinsSnoc(joins: seq<Join>, j: Join)
    ensures JoinsTokens(joins + [j]) == JoinsTokens(joins) + JoinTokens(j)
  {
    hide JoinTokens;
    if joins == [] {
      assert ([j])[1..] == [];
      assert JoinsTokens([j]) == JoinTokens(j) + [];
    } else {
      assert (joins + [j])[1..] == joins[1..] + [j] && (joins + [j])[0] == joins[0];
      JoinsSnoc(joins[1..], j);
    }
  }

  method CompileJoins(d: Dialect, js: seq<QueryJoin>, statement: string) returns (r: Option<string>)
    ensures r.Some? <==> MapAll(js, JoinOf).Some?
    ensures r.Some? ==> r.value == statement + Text(d, JoinsTokens(MapAll(js, JoinOf).value))
  {
    var text := statement;
    ghost var joins: seq<Join> := [];
    hide PathOf, SourceOf, Text, PathTokens, JoinTokens, KindWord, MapAll;
    assert Text(d, JoinsTokens([])) == "" by { EmptyText(d); }
    for i := 0 to |js|
      invariant |joins| == i && forall k :: 0 <= k < i ==> JoinOf(js[k]) == Some(joins[k])
      invariant text == statement + Text(d, JoinsTokens(joins))
    {
      var j := js[i];
      var target := QuoteSource(d, j.source);
      if target.None? {
        MissingOne(js, JoinOf, i);
        return None;
      }
      var left := Quote(d, j.left);
      if left.None? {
        MissingOne(js, JoinOf, i);
        return None;
      }
      var right := Quote(d, j.right);
      if right.None? {
        MissingOne(js, JoinOf, i);
        return None;
      }
      ghost var tree := JoinOf(j).value;
      JoinText(d, tree);
      JoinsSnoc(joins, tree);
      TextConcat(d, JoinsTokens(joins), JoinTokens(tree));
      ghost var before := text;
      var added := " " + KindWord(j.kind) + " JOIN " + target.value + (" ON " + left.value) + (" = " + right.value);
      text := text + added;
      joins := joins + [tree];
      Associate(statement, before, Text(d, JoinsTokens(joins[..i])), added) by { assert joins[..i] + [tree] == joins; }
    }
    MapAllIs(js, JoinOf, joins);
    return Some(text);
  }

  lemma Associate(a: string, ab: string, b: string, c: string)
    requires ab == a + b
    ensures ab + c == a + (b + c)
  {
  }

  lemma EmptyText(d: Dialect)
    ensures Text(d, JoinsTokens([])) == ""
  {
  }

  lemma MissingOne<X, Y>(xs: seq<X>, f: X -> Option<Y>, i: nat)
    requires i < |xs| && f(xs[i]).None?
    ensures MapAll(xs, f).None?
  {
  }

  // ------------------------------------------------------------------- order

  lemma OrderText(d: Dialect, o: Order)
    ensures Text(d, OrderTokens(o)) == Text(d, PathTokens(o.field)) + (" " + Direction(o.descending))
  {
    Texts2(d, Space, Word(Direction(o.descending)));
    TextConcat(d, PathTokens(o.field), [Space, Word(Direction(o.descending))]);
  }

  method QuoteOrders(d: Dialect, os: seq<QueryOrder>) returns (r: Option<string>)
    ensures r.Some? <==> MapAll(os, OrderOf).Some?
    ensures r.Some? ==> r.value == Text(d, PrintSep(MapAll(os, OrderOf).value, OrderTokens, COMMA))
  {
    var parts: seq<string> := [];
    ghost var orders: seq<Order> := [];
    hide PathOf, Text, PathTokens, OrderTokens, MapAll;
    for i := 0 to |os|
      invariant |orders| == i && forall k :: 0 <= k < i ==> OrderOf(os[k]) == Some(orders[k])
      invariant Texts(d, parts, orders, OrderTokens)
    {
      var field := Quote(d, os[i].field);
      if field.None? {
        MissingOne(os, OrderOf, i);
        return None;
      }
      OrderText(d, OrderOf(os[i]).value);
      parts := parts + [field.value + (" " + Direction(os[i].descending))];
      orders := orders + [OrderOf(os[i]).value];
    }
    MapAllIs(os, OrderOf, orders);
    JoinedText(d, parts, orders, OrderTokens, COMMA);
    CommaText(d);
    return Some(JoinStrings(parts, ", "));
  }

  // --------------------------------------------------------------- statements

  function TopText(d: Dialect, limit: Option<nat>): string
  {
    if d == SqlServer && limit.Some? then "TOP (" + Decimal(limit.value) + ") " else ""
  }

  function LimitText(d: Dialect, limit: Option<nat>): string
  {
    if d != SqlServer && limit.Some? then " LIMIT " + Decimal(limit.value) else ""
  }

  lemma TopTextIs(d: Dialect, limit: Option<nat>)
    ensures Text(d, TopTokens(d, limit)) == TopText(d, limit)
  {
    if d == SqlServer && limit.Some? {
      var n := limit.value;
      var a, b := [Word("TOP"), Space, Open], [Number(n), Close, Space];
      Texts3(d, Word("TOP"), Space, Open);
      Texts3(d, Number(n), Close, Space);
      TextConcat(d, a, b);
      hide Text, Decimal;
      assert a + b == TopTokens(d, limit);
      assert "TOP" + " " + "(" == "TOP (" && Decimal(n) + ")" + " " == Decimal(n) + ") ";
    }
  }

  lemma LimitTextIs(d: Dialect, limit: Option<nat>)
    ensures Text(d, LimitTokens(d, limit)) == LimitText(d, limit)
  {
    if d != SqlServer && limit.Some? {
      AndText(d);
      Texts1(d, Number(limit.value));
      TextConcat(d, LIMIT, [Number(limit.value)]);
    }
  }

  /** The parts of a statement's text, in the order in which they are pushed. */
  lemma SelectText(d: Dialect, q: Select)
    ensures Text(d, SelectTokens(d, q)) ==
      "SELECT " + TopText(d, q.limit) + Text(d, PrintSep(q.columns, PathTokens, COMMA))
      + " FROM " + Text(d, PathTokens(q.source))
      + Text(d, JoinsTokens(q.joins))
      + WhereText(d, q.filters)
      + Text(d, PrintSection(GROUP_BY, q.groupBy, PathTokens, COMMA))
      + Text(d, PrintSection(ORDER_BY, q.orderBy, OrderTokens, COMMA))
      + LimitText(d, q.limit)
  {
    var select, from := [Word("SELECT"), Space], [Space, Word("FROM"), Space];
    var where := PrintSection(WHERE, q.filters, (c: Clause) => ClauseTokens(d, c), AND);
    var group := PrintSection(GROUP_BY, q.groupBy, PathTokens, COMMA);
    var order := PrintSection(ORDER_BY, q.orderBy, OrderTokens, COMMA);
    TopTextIs(d, q.limit);
    LimitTextIs(d, q.limit);
    Texts2(d, Word("SELECT"), Space);
    Texts3(d, Space, Word("FROM"), Space);
    hide Text, PrintSep, PrintSection, PathTokens, JoinsTokens, TopTokens, LimitTokens, TopText, LimitText;
    assert "SELECT" + " " == "SELECT " && " " + "FROM" + " " == " FROM ";
    var s1 := select + TopTokens(d, q.limit);
    var s2 := s1 + PrintSep(q.columns, PathTokens, COMMA);
    var s3 := s2 + from;
    var s4 := s3 + PathTokens(q.source);
    var s5 := s4 + JoinsTokens(q.joins);
    var s6 := s5 + where;
    var s7 := s6 + group;
    var s8 := s7 + order;
    TextConcat(d, select, TopTokens(d, q.limit));
    TextConcat(d, s1, PrintSep(q.columns, PathTokens, COMMA));
    TextConcat(d, s2, from);
    TextConcat(d, s3, PathTokens(q.source));
    TextConcat(d, s4, JoinsTokens(q.joins));
    TextConcat(d, s5, where);
    TextConcat(d, s6, group);
    TextConcat(d, s7, order);
    TextConcat(d, s8, LimitTokens(d, q.limit));
  }

  lemma NoSections(d: Dialect)
    ensures Text(d, PrintSection(GROUP_BY, [], PathTokens, COMMA)) == ""
    ensures Text(d, PrintSection(ORDER_BY, [], OrderTokens, COMMA)) == ""
    ensures WhereText(d, []) == ""
  {
  }

  lemma GroupText(d: Dialect, ps: seq<Path>)
    requires ps != []
    ensures Text(d, PrintSection(GROUP_BY, ps, PathTokens, COMMA)) ==
      " GROUP BY " + Text(d, PrintSep(ps, PathTokens, COMMA))
  {
    ByText(d, "GROUP");
    assert " " + "GROUP" + " BY " == " GROUP BY ";
    SectionText(d, GROUP_BY, " GROUP BY ", ps, PathTokens, COMMA);
  }

  lemma OrdersText(d: Dialect, os: seq<Order>)
    requires os != []
    ensures Text(d, PrintSection(ORDER_BY, os, OrderTokens, COMMA)) ==
      " ORDER BY " + Text(d, PrintSep(os, OrderTokens, COMMA))
  {
    ByText(d, "ORDER");
    assert " " + "ORDER" + " BY " == " ORDER BY ";
    SectionText(d, ORDER_BY, " ORDER BY ", os, OrderTokens, COMMA);
  }

  method PushWhere(d: Dialect, fs: seq<QueryFilter>, statement: string) returns (r: Option<string>,
        parameters: seq<Value>)
    ensures r.Some? <==> FiltersOf(d, fs).Some?
    ensures r.Some? ==> parameters == FiltersOf(d, fs).value.1
    ensures r.Some? ==> r.value == statement + WhereText(d, FiltersOf(d, fs).value.0)
  {
    hide Text, PrintSection, FilterOf, WhereText;
    if fs == [] {
      NoSections(d);
      return Some(statement + ""), [];
    }
    var where;
    where, parameters := CompileFilters(d, fs);
    if where.None? {
      return None, parameters;
    }
    return Some(statement + where.value), parameters;
  }

  method PushGroup(d: Dialect, ids: seq<string>, statement: string) returns (r: Option<string>)
    ensures r.Some? <==> MapAll(ids, PathOf).Some?
    ensures r.Some? ==>
      r.value == statement + Text(d, PrintSection(GROUP_BY, MapAll(ids, PathOf).value, PathTokens, COMMA))
  {
    hide Text, PrintSection, PathOf, PathTokens, PrintSep;
    if ids == [] {
      NoSections(d);
      return Some(statement + "");
    }
    var group := QuoteAll(d, ids);
    if group.None? {
      return None;
    }
    GroupText(d, MapAll(ids, PathOf).value);
    return Some(statement + (" GROUP BY " + group.value));
  }

  method PushOrder(d: Dialect, os: seq<QueryOrder>, statement: string) returns (r: Option<string>)
    ensures r.Some? <==> MapAll(os, OrderOf).Some?
    ensures r.Some? ==>
      r.value == statement + Text(d, PrintSection(ORDER_BY, MapAll(os, OrderOf).value, OrderTokens, COMMA))
  {
    hide Text, PrintSection, OrderOf, OrderTokens, PrintSep;
    if os == [] {
      NoSections(d);
      return Some(statement + "");
    }
    var order := QuoteOrders(d, os);
    if order.None? {
      return None;
    }
    OrdersText(d, MapAll(os, OrderOf).value);
    return Some(statement + (" ORDER BY " + order.value));
  }

  /** Compiles a specification, or refuses it; the statement is the text of its meaning and
      the parameters are the values it binds, in order. */
  method Compile(d: Dialect, spec: QuerySpec) returns (r: Option<CompiledQuery>)
    ensures r.Some? <==> Meaning(d, spec).Some?
    ensures r.Some? ==>
      && r.value.statement == Text(d, SelectTokens(d, Meaning(d, spec).value.0))
      && r.value.parameters == Meaning(d, spec).value.1
  {
    hide MapAll, PathOf, SourceOf, JoinOf, OrderOf, FiltersOf, Text, PathTokens, OrderTokens, JoinsTokens, PrintSep,
      PrintSection, SelectTokens, TopText, LimitText, WhereText;
    if spec.columns == [] {
      return None;
    }
    var columns := QuoteAll(d, spec.columns);
    if columns.None? {
      return None;
    }
    var source := QuoteSource(d, spec.source);
    if source.None? {
      return None;
    }
    var statement := "SELECT " + TopText(d, spec.limit) + columns.value + " FROM " + source.value;
    var pushed := CompileJoins(d, spec.joins, statement);
    if pushed.None? {
      return None;
    }
    var parameters;
    pushed, parameters := PushWhere(d, spec.filters, pushed.value);
    if pushed.None? {
      return None;
    }
    pushed := PushGroup(d, spec.groupBy, pushed.value);
    if pushed.None? {
      return None;
    }
    pushed := PushOrder(d, spec.orderBy, pushed.value);
    if pushed.None? {
      return None;
    }
    statement := pushed.value + LimitText(d, spec.limit);
    SelectText(d, Meaning(d, spec).value.0);
    return Some(CompiledQuery(statement, parameters));
  }

  /** What a compiled statement says: reading its text gives back exactly the meaning of the
      specification, so no name, value or limit can add or remove a piece of it. */
  lemma CompiledTextReadsBack(d: Dialect, spec: QuerySpec)
    requires Meaning(d, spec).Some?
    ensures ReadBack(d, Text(d, SelectTokens(d, Meaning(d, spec).value.0))) == Some(Meaning(d, spec).value.0)
  {
    MeaningIsWellFormed(d, spec);
    hide Meaning, ReadBack, SelectTokens, Text, WellFormed;
    ReadBackInvertsText(d, Meaning(d, spec).value.0);
  }
}
