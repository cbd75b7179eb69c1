/** What a compiled statement asks of the rows, and what the specification asked: the same.
    A symbol is a relation on values, a placeholder the value bound to it, a NULL cell fits
    no comparison. Which values are in what order is the database's business, and a
    parameter here. */
module SqlMeaning {
  import opened Prelude
  import opened SqlText
  import opened SqlGrammar
  import opened SqlBuilder
  import opened SqlCompiler

  /** How the database compares two values, if it can: below, equal or above zero; and
      which characters LIKE takes for the same. */
  datatype Database = Database(compare: (Value, Value) -> Option<int>, fold: char -> char)

  /** The cell of each column; `None` is NULL. */
  type Row = Path -> Option<Value>

  // ------------------------------------------------------------------- LIKE

  /** LIKE without an escape character: `%` stands for any text, `_` for one character. */
  predicate Fits(fold: char -> char, pattern: string, text: string)
    decreases |pattern| + |text|
  {
    if pattern == "" then text == ""
    else if pattern[0] == '%' then
      Fits(fold, pattern[1..], text) || (text != "" && Fits(fold, pattern, text[1..]))
    else
      text != "" && (pattern[0] == '_' || fold(pattern[0]) == fold(text[0])) && Fits(fold, pattern[1..], text[1..])
  }

  ghost predicate SameText(fold: char -> char, a: string, b: string)
  {
    |a| == |b| && forall i :: 0 <= i < |a| ==> fold(a[i]) == fold(b[i])
  }

  ghost predicate Begins(fold: char -> char, text: string, start: string)
  {
    |start| <= |text| && SameText(fold, text[..|start|], start)
  }

  ghost predicate Within(fold: char -> char, text: string, part: string)
  {
    exists i :: 0 <= i <= |text| && Begins(fold, text[i..], part)
  }

  ghost predicate Plain(text: string)
  {
    '%' !in text && '_' !in text
  }

  lemma {:induction false} PlainStartFits(fold: char -> char, start: string, text: string)
    requires Plain(start)
    ensures Fits(fold, start + "%", text) <==> Begins(fold, text, start)
    decreases |start|
  {
    if start == "" {
      assert start + "%" == "%";
      AnythingFits(fold, text);
    } else {
      assert (start + "%")[1..] == start[1..] + "%";
      if text != "" {
        PlainStartFits(fold, start[1..], text[1..]);
        BeginsStep(fold, text, start);
      }
    }
  }

  lemma BeginsStep(fold: char -> char, text: string, start: string)
    requires text != "" && start != ""
    ensures Begins(fold, text, start) <==> fold(start[0]) == fold(text[0]) && Begins(fold, text[1..], start[1..])
  {
    if |start| <= |text| {
      var a := text[..|start|];
      assert text[1..][..|start| - 1] == a[1..];
      if Begins(fold, text[1..], start[1..]) && fold(start[0]) == fold(text[0]) {
        forall i | 0 <= i < |start|
          ensures fold(a[i]) == fold(start[i])
        {
          if i > 0 {
            assert a[i] == a[1..][i - 1] && start[i] == start[1..][i - 1];
          }
        }
      }
    }
  }

  lemma {:induction false} AnythingFits(fold: char -> char, text: string)
    ensures Fits(fold, "%", text)
    decreases |text|
  {
    assert "%"[1..] == "";
    if text != "" {
      AnythingFits(fold, text[1..]);
    }
  }

  lemma {:induction false} PlainPartFits(fold: char -> char, part: string, text: string)
    requires Plain(part)
    ensures Fits(fold, "%" + part + "%", text) <==> Within(fold, text, part)
    decreases |text|
  {
    var pattern := "%" + part + "%";
    assert pattern[0] == '%' && pattern[1..] == part + "%";
    PlainStartFits(fold, part, text);
    assert text[0..] == text;
    if text != "" {
      PlainPartFits(fold, part, text[1..]);
      WithinStep(fold, text, part);
    } else {
      assert Within(fold, text, part) ==> Begins(fold, text, part);
    }
  }

  lemma WithinStep(fold: char -> char, text: string, part: string)
    requires text != ""
    ensures Within(fold, text, part) <==> Begins(fold, text, part) || Within(fold, text[1..], part)
  {
    assert text[0..] == text;
    if i :| 0 <= i <= |text| && Begins(fold, text[i..], part) {
      if i > 0 {
        assert text[1..][i - 1..] == text[i..];
      }
    }
    if i :| 0 <= i <= |text[1..]| && Begins(fold, text[1..][i..], part) {
      assert text[1..][i..] == text[i + 1..];
    }
  }

  lemma {:induction false} CharwiseFits(fold: char -> char, pattern: string, text: string)
    requires |pattern| == |text|
    requires forall i :: 0 <= i < |text| ==>
      pattern[i] == '%' || pattern[i] == '_' || fold(pattern[i]) == fold(text[i])
    ensures Fits(fold, pattern + "%", text) && Fits(fold, "%" + pattern + "%", text)
    decreases |pattern|
  {
    if pattern == "" {
      assert pattern + "%" == "%";
      AnythingFits(fold, text);
    } else {
      CharwiseFits(fold, pattern[1..], text[1..]);
      assert (pattern + "%")[1..] == pattern[1..] + "%";
    }
    assert ("%" + pattern + "%")[1..] == pattern + "%";
  }

  /** A text that differs from `part` where `part` has a wildcard, and there alone. */
  lemma WildcardFitsOther(fold: char -> char, part: string) returns (text: string)
    requires !Plain(part) && fold('x') != fold('%') && fold('x') != fold('_')
    ensures |text| == |part| && Fits(fold, part + "%", text) && Fits(fold, "%" + part + "%", text)
    ensures !Within(fold, text, part) && !Begins(fold, text, part)
  {
    var i :| 0 <= i < |part| && (part[i] == '%' || part[i] == '_');
    text := part[i := 'x'];
    CharwiseFits(fold, part, text);
    BeginsAt(fold, text, part, i);
    assert text[0..] == text;
  }

  lemma BeginsAt(fold: char -> char, text: string, start: string, i: nat)
    requires |text| == |start| && i < |start|
    ensures Begins(fold, text, start) ==> fold(text[i]) == fold(start[i])
  {
    assert text[..|start|] == text;
  }

  /** The builder does not escape wildcards. So Contains finds exactly the texts that contain
      the value if and only if the value has no wildcard in it. */
  lemma ContainsIff(fold: char -> char, part: string)
    requires fold('x') != fold('%') && fold('x') != fold('_')
    ensures (forall text :: Fits(fold, "%" + part + "%", text) <==> Within(fold, text, part)) <==> Plain(part)
  {
    if Plain(part) {
      forall text
        ensures Fits(fold, "%" + part + "%", text) <==> Within(fold, text, part)
      {
        PlainPartFits(fold, part, text);
      }
    } else {
      var text := WildcardFitsOther(fold, part);
    }
  }

  /** The same of StartsWith. */
  lemma StartsWithIff(fold: char -> char, start: string)
    requires fold('x') != fold('%') && fold('x') != fold('_')
    ensures (forall text :: Fits(fold, start + "%", text) <==> Begins(fold, text, start)) <==> Plain(start)
  {
    if Plain(start) {
      forall text
        ensures Fits(fold, start + "%", text) <==> Begins(fold, text, start)
      {
        PlainStartFits(fold, start, text);
      }
    } else {
      var text := WildcardFitsOther(fold, start);
    }
  }

  // ---------------------------------------------------- what a statement asks

  /** The value bound to a placeholder: by its number, or else by its place among all. */
  function Bound(parameters: seq<Value>, hole: Option<nat>, place: nat): Option<Value>
  {
    match hole
    case Some(n) => if 1 <= n <= |parameters| then Some(parameters[n - 1]) else None
    case None => if place < |parameters| then Some(parameters[place]) else None
  }

  /** The relation that a symbol stands for, by how the values compare. */
  predicate Holds(symbol: string, order: int)
  {
    if symbol == "=" then order == 0
    else if symbol == "<>" then order != 0
    else if symbol == ">" then order > 0
    else if symbol == ">=" then order >= 0
    else if symbol == "<" then order < 0
    else symbol == "<=" && order <= 0
  }

  ghost predicate Related(db: Database, cell: Option<Value>, symbol: string, value: Option<Value>)
  {
    && cell.Some? && value.Some?
    && db.compare(cell.value, value.value).Some? && Holds(symbol, db.compare(cell.value, value.value).value)
  }

  /** The clause is true of the row; its first placeholder is the one at `place`. */
  ghost predicate Denotes(db: Database, row: Row, parameters: seq<Value>, c: Clause, place: nat)
  {
    var cell := row(c.field);
    match c
    case Compare(_, symbol, hole) => Related(db, cell, symbol, Bound(parameters, hole, place))
    case Like(_, hole) =>
      var pattern := Bound(parameters, hole, place);
      && cell.Some? && cell.value.Str? && pattern.Some? && pattern.value.Str?
      && Fits(db.fold, pattern.value.text, cell.value.text)
    case In(_, holes) =>
      exists i :: 0 <= i < |holes| && Related(db, cell, "=", Bound(parameters, holes[i], place + i))
    case IsNull(_) => cell.None?
    case IsNotNull(_) => cell.Some?
  }

  /** WHERE keeps the row: every clause is true of it. */
  ghost predicate Keeps(db: Database, row: Row, parameters: seq<Value>, cs: seq<Clause>)
  {
    forall i :: 0 <= i < |cs| ==> Denotes(db, row, parameters, cs[i], |AllHoles(cs[..i])|)
  }

  // ------------------------------------------------ what a specification asks

  /** The text that Contains and StartsWith look for; values that are not scalar have none. */
  function Sought(v: Value): string
  {
    if v.Str? || v.Numeric? then v.text
    else if v == Bool(true) then "true"
    else if v == Bool(false) then "false"
    else ""
  }

  ghost predicate Compares(db: Database, cell: Option<Value>, value: Value, low: bool, equal: bool, high: bool)
  {
    && cell.Some? && db.compare(cell.value, value).Some?
    && var order := db.compare(cell.value, value).value;
      (order < 0 && low) || (order == 0 && equal) || (order > 0 && high)
  }

  /** What a filter asks of the cell of its field. */
  ghost predicate Asked(db: Database, cell: Option<Value>, operator: Operator, value: Value)
  {
    match operator
    case Eq => if value == Null then cell.None? else Compares(db, cell, value, false, true, false)
    case NotEq => if value == Null then cell.Some? else Compares(db, cell, value, true, false, true)
    case GreaterThan => Compares(db, cell, value, false, false, true)
    case GreaterOrEqual => Compares(db, cell, value, false, true, true)
    case LessThan => Compares(db, cell, value, true, false, false)
    case LessOrEqual => Compares(db, cell, value, true, true, false)
    case Contains => cell.Some? && cell.value.Str? && Fits(db.fold, "%" + Sought(value) + "%", cell.value.text)
    case StartsWith => cell.Some? && cell.value.Str? && Fits(db.fold, Sought(value) + "%", cell.value.text)
    case InList => value.Array? && exists v :: v in value.items && Compares(db, cell, v, false, true, false)
    case IsNullOp => cell.None?
    case IsNotNullOp => cell.Some?
  }

  // ------------------------------------------------------------ the two agree

  lemma SymbolsMean(db: Database, cell: Option<Value>, value: Value)
    ensures Related(db, cell, "=", Some(value)) <==> Compares(db, cell, value, false, true, false)
    ensures Related(db, cell, "<>", Some(value)) <==> Compares(db, cell, value, true, false, true)
    ensures Related(db, cell, ">", Some(value)) <==> Compares(db, cell, value, false, false, true)
    ensures Related(db, cell, ">=", Some(value)) <==> Compares(db, cell, value, false, true, true)
    ensures Related(db, cell, "<", Some(value)) <==> Compares(db, cell, value, true, false, false)
    ensures Related(db, cell, "<=", Some(value)) <==> Compares(db, cell, value, true, true, false)
  {
  }

  lemma BoundIs(d: Dialect, parameters: seq<Value>, used: nat, i: nat)
    requires used + i < |parameters|
    ensures Bound(parameters, HoleAt(d, used + i + 1), used + i) == Some(parameters[used + i])
  {
  }

  /** A compiled filter is true of exactly the rows that the filter asks for, when the values
      it binds are bound after the `used` ones before it. */
  lemma FilterMeans(d: Dialect, db: Database, row: Row, f: QueryFilter, used: nat, parameters: seq<Value>)
    requires FilterOf(d, f, used).Some?
    requires used + |FilterOf(d, f, used).value.1| <= |parameters|
    requires parameters[used..used + |FilterOf(d, f, used).value.1|] == FilterOf(d, f, used).value.1
    ensures PathOf(f.field).Some?
    ensures Denotes(db, row, parameters, FilterOf(d, f, used).value.0, used) <==>
      Asked(db, row(PathOf(f.field).value), f.operator, f.value)
  {
    hide PathOf, Fits;
    var (c, vs) := FilterOf(d, f, used).value;
    var cell := row(PathOf(f.field).value);
    assert forall i :: 0 <= i < |vs| ==> parameters[used + i] == parameters[used..used + |vs|][i] == vs[i];
    if |vs| > 0 {
      BoundIs(d, parameters, used, 0);
    }
    match f.operator
    case InList => ListMeans(d, db, cell, f.value.items, used, parameters);
    case Contains =>
    case StartsWith =>
    case IsNullOp =>
    case IsNotNullOp =>
    case _ => SymbolsMean(db, cell, f.value);
  }

  lemma ListMeans(d: Dialect, db: Database, cell: Option<Value>, items: seq<Value>, used: nat, parameters: seq<Value>)
    requires used + |items| <= |parameters|
    requires forall i :: 0 <= i < |items| ==> parameters[used + i] == items[i]
    ensures var holes := HolesFrom(d, used, |items|);
      (exists i :: 0 <= i < |holes| && Related(db, cell, "=", Bound(parameters, holes[i], used + i))) <==>
        exists v :: v in items && Compares(db, cell, v, false, true, false)
  {
    var holes := HolesFrom(d, used, |items|);
    forall i | 0 <= i < |items|
      ensures Related(db, cell, "=", Bound(parameters, holes[i], used + i)) <==>
        Compares(db, cell, items[i], false, true, false)
    {
      BoundIs(d, parameters, used, i);
      SymbolsMean(db, cell, items[i]);
    }
    hide Related, Compares, Bound, HolesFrom;
    if v :| v in items && Compares(db, cell, v, false, true, false) {
      var i :| 0 <= i < |items| && items[i] == v;
      assert Related(db, cell, "=", Bound(parameters, holes[i], used + i));
    }
  }

  lemma KeepsSnoc(db: Database, row: Row, parameters: seq<Value>, cs: seq<Clause>, c: Clause)
    ensures Keeps(db, row, parameters, cs + [c]) <==>
      Keeps(db, row, parameters, cs) && Denotes(db, row, parameters, c, |AllHoles(cs)|)
  {
    hide Denotes, AllHoles;
    var all := cs + [c];
    assert all[..|cs|] == cs && all[|cs|] == c;
    forall i | 0 <= i < |cs|
      ensures all[i] == cs[i] && all[..i] == cs[..i]
    {
    }
    if Keeps(db, row, parameters, all) {
      forall i | 0 <= i < |cs|
        ensures Denotes(db, row, parameters, cs[i], |AllHoles(cs[..i])|)
      {
        assert Denotes(db, row, parameters, all[i], |AllHoles(all[..i])|);
      }
      assert Denotes(db, row, parameters, all[|cs|], |AllHoles(all[..|cs|])|);
    }
  }

  ghost predicate AllAsked(db: Database, row: Row, fs: seq<QueryFilter>)
  {
    forall i :: 0 <= i < |fs| ==> PathOf(fs[i].field).Some? && AskedOf(db, row, fs[i])
  }

  ghost predicate AskedOf(db: Database, row: Row, f: QueryFilter)
    requires PathOf(f.field).Some?
  {
    Asked(db, row(PathOf(f.field).value), f.operator, f.value)
  }

  /** WHERE keeps exactly the rows that satisfy every filter, when the values bound by the
      filters come first among the parameters. */
  lemma {:induction false} FiltersMean(d: Dialect, db: Database, row: Row, fs: seq<QueryFilter>,
                                       parameters: seq<Value>)
    requires FiltersOf(d, fs).Some? && FiltersOf(d, fs).value.1 <= parameters
    ensures Keeps(db, row, parameters, FiltersOf(d, fs).value.0) <==> AllAsked(db, row, fs)
  {
    hide FilterOf, Asked, Denotes, PathOf, Keeps, AllHoles;
    if fs == [] {
      NothingAsked(db, row, parameters);
    } else {
      var n := |fs| - 1;
      var (cs, values) := FiltersOf(d, fs[..n]).value;
      var (c, vs) := FilterOf(d, fs[n], |values|).value;
      assert FiltersOf(d, fs).value == (cs + [c], values + vs);
      assert values + vs <= parameters;
      assert parameters[..|values|] == (values + vs)[..|values|] == values;
      assert parameters[|values|..|values| + |vs|] == (values + vs)[|values|..] == vs;
      FiltersMean(d, db, row, fs[..n], parameters);
      FilterMeans(d, db, row, fs[n], |values|, parameters);
      FiltersAreNumbered(d, fs[..n]);
      KeepsSnoc(db, row, parameters, cs, c);
      assert fs == fs[..n] + [fs[n]];
      AskedSnoc(db, row, fs[..n], fs[n]);
    }
  }

  lemma NothingAsked(db: Database, row: Row, parameters: seq<Value>)
    ensures Keeps(db, row, parameters, []) && AllAsked(db, row, [])
  {
  }

  lemma AskedSnoc(db: Database, row: Row, fs: seq<QueryFilter>, f: QueryFilter)
    requires PathOf(f.field).Some?
    ensures AllAsked(db, row, fs + [f]) <==> AllAsked(db, row, fs) && AskedOf(db, row, f)
  {
    hide PathOf, AskedOf;
    var all := fs + [f];
    assert all[|fs|] == f;
    assert forall i :: 0 <= i < |fs| ==> all[i] == fs[i];
    if AllAsked(db, row, all) {
      assert AskedOf(db, row, all[|fs|]);
    }
  }

  /** The other parts of the statement are those of the specification, one by one. */
  lemma PartsMean(d: Dialect, spec: QuerySpec)
    requires Meaning(d, spec).Some?
    ensures var q := Meaning(d, spec).value.0;
      && q.limit == spec.limit
      && |q.columns| == |spec.columns| && |q.joins| == |spec.joins|
      && |q.groupBy| == |spec.groupBy| && |q.orderBy| == |spec.orderBy|
      && (forall i :: 0 <= i < |q.columns| ==> PathOf(spec.columns[i]) == Some(q.columns[i]))
      && (forall i :: 0 <= i < |q.groupBy| ==> PathOf(spec.groupBy[i]) == Some(q.groupBy[i]))
      && (forall i :: 0 <= i < |q.orderBy| ==>
           && PathOf(spec.orderBy[i].field) == Some(q.orderBy[i].field)
           && q.orderBy[i].descending == spec.orderBy[i].descending)
      && (forall i :: 0 <= i < |q.joins| ==>
           && q.joins[i].kind == spec.joins[i].kind && IsTable(spec.joins[i].source, q.joins[i].target)
           && PathOf(spec.joins[i].left) == Some(q.joins[i].left)
           && PathOf(spec.joins[i].right) == Some(q.joins[i].right))
      && IsTable(spec.source, q.source)
  {
    var q := Meaning(d, spec).value.0;
    assert MapAll(spec.columns, PathOf) == Some(q.columns) && MapAll(spec.joins, JoinOf) == Some(q.joins);
    assert MapAll(spec.groupBy, PathOf) == Some(q.groupBy) && MapAll(spec.orderBy, OrderOf) == Some(q.orderBy);
    TableIs(spec.source);
    assert SourceOf(spec.source) == Some(q.source);
    hide MapAll, PathOf, SourceOf, FiltersOf, Meaning;
    forall i | 0 <= i < |q.orderBy|
      ensures PathOf(spec.orderBy[i].field) == Some(q.orderBy[i].field)
      ensures q.orderBy[i].descending == spec.orderBy[i].descending
    {
      assert OrderOf(spec.orderBy[i]) == Some(q.orderBy[i]);
    }
    hide OrderOf;
    forall i | 0 <= i < |q.joins|
      ensures q.joins[i].kind == spec.joins[i].kind && IsTable(spec.joins[i].source, q.joins[i].target)
      ensures PathOf(spec.joins[i].left) == Some(q.joins[i].left)
      ensures PathOf(spec.joins[i].right) == Some(q.joins[i].right)
    {
      assert JoinOf(spec.joins[i]) == Some(q.joins[i]);
      TableIs(spec.joins[i].source);
    }
  }

  /** The path of a table: behind that of its schema, if it has one that is not blank. */
  ghost predicate IsTable(source: QuerySource, p: Path)
  {
    PathOf(source.table).Some? &&
    if source.schema.Some? && exists i :: 0 <= i < |source.schema.value| && !IsSpace(source.schema.value[i]) then
      PathOf(source.schema.value).Some? && p == PathOf(source.schema.value).value + PathOf(source.table).value
    else p == PathOf(source.table).value
  }

  lemma TableIs(source: QuerySource)
    ensures SourceOf(source).Some? ==> IsTable(source, SourceOf(source).value)
  {
    hide PathOf, IsSpace;
    if source.schema.Some? {
      BlankIff(source.schema.value);
    }
  }

  lemma BlankIff(s: string)
    ensures Trim(s) == "" <==> forall i :: 0 <= i < |s| ==> IsSpace(s[i])
  {
    TrimmedAround(s);
    hide IsSpace, Trim;
    var a, b := TrimParts(s);
    var t := Trim(s);
    if t != "" {
      assert s[|a|] == t[0];
    } else {
      forall i | 0 <= i < |s|
        ensures IsSpace(s[i])
      {
        assert s[i] == if i < |a| then a[i] else b[i - |a|];
      }
    }
  }

  // ------------------------------------------------------------- identifiers

  /** Trimming takes spaces off both ends, and all of them. */
  lemma TrimParts(s: string) returns (a: string, b: string)
    ensures s == a + Trim(s) + b
    ensures (forall i :: 0 <= i < |a| ==> IsSpace(a[i])) && forall i :: 0 <= i < |b| ==> IsSpace(b[i])
  {
    var t := TrimStart(s);
    a := StartPart(s);
    b := EndPart(t);
    assert s == a + t && t == TrimEnd(t) + b;
  }

  lemma TrimmedAround(s: string)
    ensures Trim(s) != "" ==> !IsSpace(Trim(s)[0]) && !IsSpace(Trim(s)[|Trim(s)| - 1])
  {
    hide IsSpace;
    StartTrimmed(s);
    EndTrimmed(TrimStart(s));
  }

  lemma {:induction false} StartPart(s: string) returns (a: string)
    ensures s == a + TrimStart(s) && forall i :: 0 <= i < |a| ==> IsSpace(a[i])
  {
    hide IsSpace;
    a := "";
    if s != "" && IsSpace(s[0]) {
      a := StartPart(s[1..]);
      a := [s[0]] + a;
    }
  }

  lemma {:induction false} EndPart(s: string) returns (b: string)
    ensures s == TrimEnd(s) + b && forall i :: 0 <= i < |b| ==> IsSpace(b[i])
  {
    hide IsSpace;
    b := "";
    if s != "" && IsSpace(s[|s| - 1]) {
      b := EndPart(s[..|s| - 1]);
      b := b + [s[|s| - 1]];
    }
  }

  lemma {:induction false} StartTrimmed(s: string)
    ensures TrimStart(s) != "" ==> !IsSpace(TrimStart(s)[0])
  {
    hide IsSpace;
    if s != "" && IsSpace(s[0]) {
      StartTrimmed(s[1..]);
    }
  }

  lemma {:induction false} EndTrimmed(s: string)
    ensures TrimEnd(s) != "" ==> TrimEnd(s)[0] == s[0] && !IsSpace(TrimEnd(s)[|TrimEnd(s)| - 1])
  {
    hide IsSpace;
    if s != "" && IsSpace(s[|s| - 1]) {
      EndTrimmed(s[..|s| - 1]);
    }
  }

  /** A star, or a letter or underscore and then letters, digits, underscores and dollars. */
  predicate IsSegment(t: string)
  {
    || t == "*"
    || (&& t != "" && (t[0] == '_' || 'a' <= t[0] <= 'z' || 'A' <= t[0] <= 'Z')
        && forall i :: 1 <= i < |t| ==>
          t[i] == '_' || t[i] == '$' || 'a' <= t[i] <= 'z' || 'A' <= t[i] <= 'Z' || '0' <= t[i] <= '9')
  }

  /** A dotted identifier: its parts between the dots, trimmed, are the segments of the path;
      it is refused exactly if one of them is no segment. */
  lemma PathIs(s: string)
    ensures JoinStrings(Split(s), ".") == s
    ensures forall i :: 0 <= i < |Split(s)| ==> '.' !in Split(s)[i]
    ensures PathOf(s).Some? <==> forall i :: 0 <= i < |Split(s)| ==> IsSegment(Trim(Split(s)[i]))
    ensures PathOf(s).Some? ==>
      && |PathOf(s).value| == |Split(s)|
      && forall i :: 0 <= i < |Split(s)| ==>
        PathOf(s).value[i] == if Trim(Split(s)[i]) == "*" then Any else Named(Trim(Split(s)[i]))
  {
    SplitIsJoin(s);
    var parts := Split(s);
    hide Split, Trim, IsSegment;
    forall i | 0 <= i < |parts|
      ensures SegmentOf(parts[i]) ==
        if !IsSegment(Trim(parts[i])) then None
        else Some(if Trim(parts[i]) == "*" then Any else Named(Trim(parts[i])))
    {
      SegmentIs(parts[i]);
    }
    hide SegmentOf;
  }

  lemma SegmentIs(raw: string)
    ensures SegmentOf(raw) ==
      if !IsSegment(Trim(raw)) then None else Some(if Trim(raw) == "*" then Any else Named(Trim(raw)))
  {
    hide Trim;
  }

  lemma {:induction false} SplitIsJoin(s: string)
    ensures JoinStrings(Split(s), ".") == s
    ensures forall i :: 0 <= i < |Split(s)| ==> '.' !in Split(s)[i]
  {
    if s != "" {
      SplitIsJoin(s[1..]);
      var rest := Split(s[1..]);
      assert s == [s[0]] + s[1..];
      if s[0] == '.' {
        assert ([""] + rest)[1..] == rest;
      } else {
        var parts := [[s[0]] + rest[0]] + rest[1..];
        assert parts[1..] == rest[1..];
        assert forall i :: 1 <= i < |parts| ==> parts[i] == rest[i];
      }
    }
  }

  // -------------------------------------------------------------- the dialects

  /** How the three dialects differ: quotes, placeholders, the word for LIKE. */
  lemma DialectsSpell(name: string, n: nat)
    ensures Spell(Postgres, Name(name)) == "\"" + name + "\"" && Spell(MySql, Name(name)) == "`" + name + "`"
    ensures Spell(SqlServer, Name(name)) == "[" + name + "]"
    ensures Spell(Postgres, Hole(Some(n))) == "$" + Decimal(n) && Spell(SqlServer, Hole(Some(n))) == "@P" + Decimal(n)
    ensures Spell(MySql, Hole(None)) == "?"
  {
    hide Decimal;
  }

  lemma LikeText(d: Dialect, p: Path, hole: Option<nat>)
    ensures Text(d, ClauseTail(d, Like(p, hole))) ==
      (if d == Postgres then " ILIKE " else " LIKE ") + Placeholder(d, hole)
  {
    CompareText(d, Like(p, hole));
    hide Text, ClauseTail, Placeholder;
    assert " " + "ILIKE" + " " == " ILIKE " && " " + "LIKE" + " " == " LIKE ";
  }

  /** And where the limit goes: behind SELECT for SQL Server, at the end for the others. */
  lemma StatementText(d: Dialect, q: Select)
    ensures Text(d, SelectTokens(d, q)) ==
      "SELECT "
      + (if d == SqlServer && q.limit.Some? then "TOP (" + Decimal(q.limit.value) + ") " else "")
      + Text(d, PrintSep(q.columns, PathTokens, COMMA))
      + " FROM " + Text(d, PathTokens(q.source))
      + Text(d, JoinsTokens(q.joins))
      + WhereText(d, q.filters)
      + Text(d, PrintSection(GROUP_BY, q.groupBy, PathTokens, COMMA))
      + Text(d, PrintSection(ORDER_BY, q.orderBy, OrderTokens, COMMA))
      + (if d != SqlServer && q.limit.Some? then " LIMIT " + Decimal(q.limit.value) else "")
  {
    SelectText(d, q);
    hide Text, Decimal, SelectTokens, PrintSep, PrintSection, WhereText, JoinsTokens;
  }

  // ---------------------------------------------------------------- the whole

  /** What a compiled statement says, and asks: its text reads back as one tree, which keeps
      exactly the rows that satisfy every filter of the specification, when its parameters
      are bound; and whose other parts are those of the specification. */
  lemma CompiledTextMeans(d: Dialect, spec: QuerySpec, db: Database, row: Row)
    requires Meaning(d, spec).Some?
    ensures var (q, parameters) := Meaning(d, spec).value;
      && ReadBack(d, Text(d, SelectTokens(d, q))) == Some(q)
      && (Keeps(db, row, parameters, q.filters) <==> AllAsked(db, row, spec.filters))
  {
    CompiledTextReadsBack(d, spec);
    MeaningOfFilters(d, spec);
    FiltersMean(d, db, row, spec.filters, Meaning(d, spec).value.1);
    hide Meaning, ReadBack, Keeps, AllAsked, FiltersOf;
  }
}
