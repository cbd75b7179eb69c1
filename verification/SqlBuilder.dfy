/** Compiling a neutral query specification to a statement and its bound parameters. */
module SqlBuilder {
  import opened Prelude
  import opened SqlText
  import opened SqlGrammar

  datatype Value =
    | Null
    | Bool(flag: bool)
    | Numeric(text: string)
    | Str(text: string)
    | Array(items: seq<Value>)
    | Object

  datatype Operator =
    | Eq | NotEq | GreaterThan | GreaterOrEqual | LessThan | LessOrEqual
    | Contains | StartsWith | InList | IsNullOp | IsNotNullOp

  datatype QuerySource = QuerySource(schema: Option<string>, table: string)
  datatype QueryJoin = QueryJoin(kind: JoinKind, source: QuerySource, left: string, right: string)
  datatype QueryFilter = QueryFilter(field: string, operator: Operator, value: Value)
  datatype QueryOrder = QueryOrder(field: string, descending: bool)

  datatype QuerySpec = QuerySpec(
    source: QuerySource,
    columns: seq<string>,
    joins: seq<QueryJoin>,
    filters: seq<QueryFilter>,
    groupBy: seq<string>,
    orderBy: seq<QueryOrder>,
    limit: Option<nat>
  )

  datatype CompiledQuery = CompiledQuery(statement: string, parameters: seq<Value>)

  // ------------------------------------------------------------- identifiers

  /** The characters with the Unicode property White_Space. */
  predicate IsSpace(c: char)
  {
    var n := c as int;
    || 0x9 <= n <= 0xD || n == 0x20 || n == 0x85 || n == 0xA0 || n == 0x1680
    || 0x2000 <= n <= 0x200A || n == 0x2028 || n == 0x2029 || n == 0x202F || n == 0x205F || n == 0x3000
  }

  lemma SpacesAre(c: char)
    ensures IsSpace(c) <==>
      c as int in {0x9, 0xA, 0xB, 0xC, 0xD, 0x20, 0x85, 0xA0, 0x1680,
                   0x2000, 0x2001, 0x2002, 0x2003, 0x2004, 0x2005, 0x2006, 0x2007, 0x2008, 0x2009, 0x200A,
                   0x2028, 0x2029, 0x202F, 0x205F, 0x3000}
  {
  }

  function TrimStart(s: string): string
  {
    if s != "" && IsSpace(s[0]) then TrimStart(s[1..]) else s
  }

  function TrimEnd(s: string): string
  {
    if s != "" && IsSpace(s[|s| - 1]) then TrimEnd(s[..|s| - 1]) else s
  }

  function Trim(s: string): string
  {
    TrimEnd(TrimStart(s))
  }

  /** `split('.')`: never empty. */
  function Split(s: string): (parts: seq<string>)
    ensures parts != []
  {
    if s == "" then [""] else
    var rest := Split(s[1..]);
    if s[0] == '.' then [""] + rest else [[s[0]] + rest[0]] + rest[1..]
  }

  function SegmentOf(raw: string): Option<Segment>
  {
    var t := Trim(raw);
    if t == "*" then Some(Any) else if IsIdentifier(t) then Some(Named(t)) else None
  }

  /** All results, or none when one is missing. */
  function MapAll<X, Y>(xs: seq<X>, f: X -> Option<Y>): (ys: Option<seq<Y>>)
    ensures ys.Some? <==> forall i :: 0 <= i < |xs| ==> f(xs[i]).Some?
    ensures ys.Some? ==> |ys.value| == |xs| && forall i :: 0 <= i < |xs| ==> f(xs[i]) == Some(ys.value[i])
  {
    if xs == [] then Some([]) else
    var n := |xs| - 1;
    var rest := MapAll(xs[..n], f);
    assert forall i :: 0 <= i < n ==> xs[..n][i] == xs[i];
    if rest.None? || f(xs[n]).None? then None else Some(rest.value + [f(xs[n]).value])
  }

  function PathOf(identifier: string): Option<Path>
  {
    MapAll(Split(identifier), SegmentOf)
  }

  function SourceOf(source: QuerySource): Option<Path>
  {
    var table := PathOf(source.table);
    if source.schema.Some? && Trim(source.schema.value) != "" then
      var schema := PathOf(source.schema.value);
      if schema.None? || table.None? then None else Some(schema.value + table.value)
    else table
  }

  function JoinOf(j: QueryJoin): Option<Join>
  {
    var target, left, right := SourceOf(j.source), PathOf(j.left), PathOf(j.right);
    if target.None? || left.None? || right.None? then None
    else Some(Join(j.kind, target.value, left.value, right.value))
  }

  function OrderOf(o: QueryOrder): Option<Order>
  {
    match PathOf(o.field)
    case None => None
    case Some(p) => Some(Order(p, o.descending))
  }

  // ----------------------------------------------------------------- filters

  function ScalarString(v: Value): string
  {
    match v
    case Str(text) => text
    case Numeric(text) => text
    case Bool(flag) => if flag then "true" else "false"
    case _ => ""
  }

  function Symbol(op: Operator): string
  {
    match op
    case Eq => "=" case NotEq => "<>" case GreaterThan => ">" case GreaterOrEqual => ">="
    case LessThan => "<" case LessOrEqual => "<="
    case _ => "="
  }

  /** The placeholder of the `n`-th parameter. */
  function HoleAt(d: Dialect, n: nat): Option<nat>
  {
    if d == MySql then None else Some(n)
  }

  function HolesFrom(d: Dialect, used: nat, count: nat): (holes: seq<Option<nat>>)
    ensures |holes| == count
    ensures forall i :: 0 <= i < count ==> holes[i] == HoleAt(d, used + i + 1)
  {
    seq(count, i requires 0 <= i < count => HoleAt(d, used + i + 1))
  }

  predicate NullAllowed(op: Operator)
  {
    op == Eq || op == NotEq || op == IsNullOp || op == IsNotNullOp
  }

  predicate ListAllowed(v: Value)
  {
    v.Array? && v.items != [] && forall i :: 0 <= i < |v.items| ==> v.items[i] != Null
  }

  /** A filter as a clause and the values it binds, after `used` earlier parameters. */
  function FilterOf(d: Dialect, f: QueryFilter, used: nat): Option<(Clause, seq<Value>)>
  {
    var field := PathOf(f.field);
    if field.None? || (f.value == Null && !NullAllowed(f.operator)) then None else
    var p, hole := field.value, HoleAt(d, used + 1);
    match f.operator
    case Contains => Some((Like(p, hole), [Str("%" + ScalarString(f.value) + "%")]))
    case StartsWith => Some((Like(p, hole), [Str(ScalarString(f.value) + "%")]))
    case InList =>
      if ListAllowed(f.value) then Some((In(p, HolesFrom(d, used, |f.value.items|)), f.value.items)) else None
    case IsNullOp => Some((IsNull(p), []))
    case IsNotNullOp => Some((IsNotNull(p), []))
    case Eq => if f.value == Null then Some((IsNull(p), [])) else Some((Compare(p, "=", hole), [f.value]))
    case NotEq => if f.value == Null then Some((IsNotNull(p), [])) else Some((Compare(p, "<>", hole), [f.value]))
    case op => Some((Compare(p, Symbol(op), hole), [f.value]))
  }

  function FiltersOf(d: Dialect, fs: seq<QueryFilter>): Option<(seq<Clause>, seq<Value>)>
  {
    if fs == [] then Some(([], [])) else
    match FiltersOf(d, fs[..|fs| - 1])
    case None => None
    case Some((cs, values)) =>
      match FilterOf(d, fs[|fs| - 1], |values|)
      case None => None
      case Some((c, vs)) => Some((cs + [c], values + vs))
  }

  // -------------------------------------------------------------- the meaning

  /** The tree and the parameters a specification stands for. */
  function Meaning(d: Dialect, spec: QuerySpec): Option<(Select, seq<Value>)>
  {
    var columns, source := MapAll(spec.columns, PathOf), SourceOf(spec.source);
    var joins, filters := MapAll(spec.joins, JoinOf), FiltersOf(d, spec.filters);
    var groupBy, orderBy := MapAll(spec.groupBy, PathOf), MapAll(spec.orderBy, OrderOf);
    if spec.columns == [] || columns.None? || source.None? || joins.None? || filters.None? || groupBy.None?
      || orderBy.None? then None
    else
      var q := Select(columns.value, source.value, joins.value, filters.value.0, groupBy.value, orderBy.value,
                      spec.limit);
      Some((q, filters.value.1))
  }

  lemma SegmentOfWell(raw: string)
    ensures var s := SegmentOf(raw); s.Some? && s.value.Named? ==> IsIdentifier(s.value.name)
  {
  }

  lemma PathOfWell(identifier: string)
    ensures var p := PathOf(identifier); p.Some? ==> WellPath(p.value)
  {
    var parts := Split(identifier);
    forall i | 0 <= i < |parts|
      ensures var s := SegmentOf(parts[i]); s.Some? && s.value.Named? ==> IsIdentifier(s.value.name)
    {
      SegmentOfWell(parts[i]);
    }
    hide Split, SegmentOf, IsIdentifier;
  }

  lemma SourceOfWell(source: QuerySource)
    ensures var p := SourceOf(source); p.Some? ==> WellPath(p.value)
  {
    PathOfWell(source.table);
    if source.schema.Some? {
      PathOfWell(source.schema.value);
    }
    hide PathOf, IsIdentifier;
  }

  ghost predicate ClauseFits(d: Dialect, c: Clause)
  {
    WellClause(c) && WellPath(c.field) && HolesFit(d, c)
  }

  lemma FilterOfWell(d: Dialect, f: QueryFilter, used: nat)
    ensures var r := FilterOf(d, f, used); r.Some? ==> ClauseFits(d, r.value.0)
  {
    PathOfWell(f.field);
    FilterKeepsField(d, f, used);
    FilterHolesFit(d, f, used);
    FilterWellClause(d, f, used);
    hide FilterOf, WellClause, WellPath, HolesFit, PathOf;
  }

  lemma FilterKeepsField(d: Dialect, f: QueryFilter, used: nat)
    ensures var r := FilterOf(d, f, used); r.Some? ==> Some(r.value.0.field) == PathOf(f.field)
  {
    hide PathOf, Symbol, ScalarString, HolesFrom, ListAllowed;
  }

  lemma FilterHolesFit(d: Dialect, f: QueryFilter, used: nat)
    ensures var r := FilterOf(d, f, used); r.Some? ==> HolesFit(d, r.value.0)
  {
    hide PathOf, Symbol, ScalarString, HolesFrom, HoleAt, ValidToken, ListAllowed;
    HoleAtFits(d, used + 1);
    if f.value.Array? {
      HolesFromFit(d, used, |f.value.items|);
    }
    assert ListAllowed(f.value) ==> f.value.Array? by { ListsAreArrays(f.value); }
  }

  lemma ListsAreArrays(v: Value)
    ensures ListAllowed(v) ==> v.Array? && v.items != []
  {
  }

  lemma FilterWellClause(d: Dialect, f: QueryFilter, used: nat)
    ensures var r := FilterOf(d, f, used); r.Some? ==> WellClause(r.value.0)
  {
    PathOfWell(f.field);
    SymbolsAreOperators(f.operator);
    if PathOf(f.field).Some? {
      WellPathNonEmpty(PathOf(f.field).value);
    }
    if f.value.Array? && f.value.items != [] {
      assert HolesFrom(d, used, |f.value.items|) != [];
    }
    hide PathOf, Symbol, ScalarString, HolesFrom, HoleAt, WellPath;
  }

  lemma HoleAtFits(d: Dialect, n: nat)
    ensures ValidToken(d, Hole(HoleAt(d, n)))
  {
  }

  lemma HolesFromFit(d: Dialect, used: nat, count: nat)
    ensures forall i :: 0 <= i < count ==> ValidToken(d, Hole(HolesFrom(d, used, count)[i]))
  {
  }

  lemma SymbolsAreOperators(op: Operator)
    ensures Symbol(op) in OPERATORS && "=" in OPERATORS && "<>" in OPERATORS
  {
  }

  lemma WellPathNonEmpty(p: Path)
    requires WellPath(p)
    ensures p != []
  {
  }

  // The parts of a well-formed statement.

  ghost predicate WellPaths(ps: seq<Path>)
  {
    forall i :: 0 <= i < |ps| ==> WellPath(ps[i])
  }

  ghost predicate WellJoins(js: seq<Join>)
  {
    forall i :: 0 <= i < |js| ==> WellPath(js[i].target) && WellPath(js[i].left) && WellPath(js[i].right)
  }

  ghost predicate WellClauses(d: Dialect, cs: seq<Clause>)
  {
    forall i :: 0 <= i < |cs| ==> ClauseFits(d, cs[i])
  }

  ghost predicate WellOrders(os: seq<Order>)
  {
    forall i :: 0 <= i < |os| ==> WellPath(os[i].field)
  }

  lemma {:induction false} FiltersOfWell(d: Dialect, fs: seq<QueryFilter>)
    ensures var r := FiltersOf(d, fs); r.Some? ==> |r.value.0| == |fs| && WellClauses(d, r.value.0)
  {
    hide ClauseFits, FilterOf;
    if fs != [] {
      var n := |fs| - 1;
      FiltersOfWell(d, fs[..n]);
      var before := FiltersOf(d, fs[..n]);
      if before.Some? {
        FilterOfWell(d, fs[n], |before.value.1|);
      }
    }
  }

  lemma PathsWell(ids: seq<string>)
    ensures var ps := MapAll(ids, PathOf); ps.Some? ==> WellPaths(ps.value)
  {
    hide PathOf, WellPath;
    forall i | 0 <= i < |ids|
      ensures PathOf(ids[i]).Some? ==> WellPath(PathOf(ids[i]).value)
    {
      PathOfWell(ids[i]);
    }
  }

  lemma JoinsWell(js: seq<QueryJoin>)
    ensures var r := MapAll(js, JoinOf); r.Some? ==> WellJoins(r.value)
  {
    hide PathOf, WellPath, SourceOf;
    forall i | 0 <= i < |js|
      ensures var j := JoinOf(js[i]); j.Some? ==>
        WellPath(j.value.target) && WellPath(j.value.left) && WellPath(j.value.right)
    {
      SourceOfWell(js[i].source);
      PathOfWell(js[i].left);
      PathOfWell(js[i].right);
    }
  }

  lemma OrdersWell(os: seq<QueryOrder>)
    ensures var r := MapAll(os, OrderOf); r.Some? ==> WellOrders(r.value)
  {
    hide PathOf, WellPath;
    forall i | 0 <= i < |os|
      ensures var o := OrderOf(os[i]); o.Some? ==> WellPath(o.value.field)
    {
      PathOfWell(os[i].field);
    }
  }

  /** What is compiled is well-formed: names are plain identifiers, placeholders fit. */
  lemma MeaningIsWellFormed(d: Dialect, spec: QuerySpec)
    requires Meaning(d, spec).Some?
    ensures WellFormed(d, Meaning(d, spec).value.0)
  {
    hide PathOf, SourceOf, JoinOf, OrderOf, FiltersOf, WellPaths, WellJoins, WellClauses, WellOrders, WellPath, MapAll;
    hide WellFormed;
    PathsWell(spec.columns);
    SourceOfWell(spec.source);
    JoinsWell(spec.joins);
    FiltersOfWell(d, spec.filters);
    PathsWell(spec.groupBy);
    OrdersWell(spec.orderBy);
    var q := Meaning(d, spec).value.0;
    hide Meaning;
    WellPartsMakeWell(d, q);
  }

  lemma WellPartsMakeWell(d: Dialect, q: Select)
    requires q.columns != [] && WellPath(q.source)
    requires WellPaths(q.columns) && WellJoins(q.joins) && WellClauses(d, q.filters)
    requires WellPaths(q.groupBy) && WellOrders(q.orderBy)
    ensures WellFormed(d, q)
  {
    hide WellClause, HolesFit, IsIdentifier;
  }

  // ------------------------------------------------------------ placeholders

  function HolesOf(c: Clause): seq<Option<nat>>
  {
    match c
    case Compare(_, _, hole) => [hole]
    case Like(_, hole) => [hole]
    case In(_, holes) => holes
    case _ => []
  }

  function AllHoles(cs: seq<Clause>): seq<Option<nat>>
  {
    if cs == [] then [] else AllHoles(cs[..|cs| - 1]) + HolesOf(cs[|cs| - 1])
  }

  lemma HolesOfFilter(d: Dialect, f: QueryFilter, used: nat)
    ensures var r := FilterOf(d, f, used); r.Some? ==> HolesOf(r.value.0) == HolesFrom(d, used, |r.value.1|)
  {
    hide PathOf, ScalarString, Symbol;
    assert HolesFrom(d, used, 1) == [HoleAt(d, used + 1)];
  }

  lemma HolesFromConcat(d: Dialect, used: nat, a: nat, b: nat)
    ensures HolesFrom(d, used, a) + HolesFrom(d, used + a, b) == HolesFrom(d, used, a + b)
  {
  }

  lemma AllHolesSnoc(cs: seq<Clause>, c: Clause)
    ensures AllHoles(cs + [c]) == AllHoles(cs) + HolesOf(c)
  {
    hide HolesOf;
    assert (cs + [c])[..|cs|] == cs;
  }

  lemma {:induction false} FiltersAreNumbered(d: Dialect, fs: seq<QueryFilter>)
    ensures var r := FiltersOf(d, fs); r.Some? ==> AllHoles(r.value.0) == HolesFrom(d, 0, |r.value.1|)
  {
    hide FilterOf, HolesOf, HolesFrom, AllHoles;
    if fs == [] {
      NoHoles(d);
    } else {
      var n := |fs| - 1;
      FiltersAreNumbered(d, fs[..n]);
      var before := FiltersOf(d, fs[..n]);
      if before.Some? {
        var (cs, values) := before.value;
        var last := FilterOf(d, fs[n], |values|);
        if last.Some? {
          HolesOfFilter(d, fs[n], |values|);
          AllHolesSnoc(cs, last.value.0);
          HolesFromConcat(d, 0, |values|, |last.value.1|);
        }
      }
    }
  }

  lemma NoHoles(d: Dialect)
    ensures AllHoles([]) == HolesFrom(d, 0, 0)
  {
  }

  /** Placeholders are numbered 1 to n from left to right, one for each parameter. */
  lemma PlaceholdersMatchParameters(d: Dialect, spec: QuerySpec)
    requires Meaning(d, spec).Some?
    ensures var (q, parameters) := Meaning(d, spec).value;
      && |AllHoles(q.filters)| == |parameters|
      && forall i :: 0 <= i < |parameters| ==> AllHoles(q.filters)[i] == if d == MySql then None else Some(i + 1)
  {
    MeaningOfFilters(d, spec);
    FiltersAreNumbered(d, spec.filters);
    hide Meaning, FiltersOf, AllHoles;
  }

  lemma MeaningOfFilters(d: Dialect, spec: QuerySpec)
    requires Meaning(d, spec).Some?
    ensures FiltersOf(d, spec.filters) == Some((Meaning(d, spec).value.0.filters, Meaning(d, spec).value.1))
  {
    hide MapAll, PathOf, SourceOf, JoinOf, OrderOf, FiltersOf;
  }

  // -------------------------------------------------------- values and shape

  /** What of a value may decide the statement: whether it is null, and the length of a list. */
  ghost predicate SameShape(a: Value, b: Value)
  {
    && (a == Null <==> b == Null)
    && (ListAllowed(a) <==> ListAllowed(b))
    && (a.Array? && b.Array? ==> |a.items| == |b.items|)
  }

  ghost predicate SameButValues(a: QuerySpec, b: QuerySpec)
  {
    && a.(filters := []) == b.(filters := [])
    && |a.filters| == |b.filters|
    && forall i :: 0 <= i < |a.filters| ==>
         && a.filters[i].field == b.filters[i].field && a.filters[i].operator == b.filters[i].operator
         && SameShape(a.filters[i].value, b.filters[i].value)
  }

  lemma FilterIgnoresValue(d: Dialect, f: QueryFilter, g: QueryFilter, used: nat)
    requires f.field == g.field && f.operator == g.operator && SameShape(f.value, g.value)
    ensures var a, b := FilterOf(d, f, used), FilterOf(d, g, used);
      && (a.Some? <==> b.Some?)
      && (a.Some? ==> a.value.0 == b.value.0 && |a.value.1| == |b.value.1|)
  {
    hide PathOf, ScalarString, Symbol;
  }

  lemma {:induction false} FiltersIgnoreValues(d: Dialect, fs: seq<QueryFilter>, gs: seq<QueryFilter>)
    requires |fs| == |gs|
    requires forall i :: 0 <= i < |fs| ==>
      fs[i].field == gs[i].field && fs[i].operator == gs[i].operator && SameShape(fs[i].value, gs[i].value)
    ensures var a, b := FiltersOf(d, fs), FiltersOf(d, gs);
      && (a.Some? <==> b.Some?)
      && (a.Some? ==> a.value.0 == b.value.0 && |a.value.1| == |b.value.1|)
  {
    if fs != [] {
      var n := |fs| - 1;
      hide FilterOf, SameShape;
      FiltersIgnoreValues(d, fs[..n], gs[..n]);
      var before := FiltersOf(d, fs[..n]);
      if before.Some? {
        FilterIgnoresValue(d, fs[n], gs[n], |before.value.1|);
      }
    }
  }

  /** Values reach the database only as parameters: two specifications that differ in values
      of one shape give one statement, or are refused together. */
  lemma ValuesDoNotShow(d: Dialect, a: QuerySpec, b: QuerySpec)
    requires SameButValues(a, b)
    ensures Meaning(d, a).Some? <==> Meaning(d, b).Some?
    ensures Meaning(d, a).Some? ==> Meaning(d, a).value.0 == Meaning(d, b).value.0
  {
    FiltersIgnoreValues(d, a.filters, b.filters);
    assert a.source == a.(filters := []).source && b.source == b.(filters := []).source;
    assert a.columns == a.(filters := []).columns && b.columns == b.(filters := []).columns;
    assert a.joins == a.(filters := []).joins && b.joins == b.(filters := []).joins;
    assert a.groupBy == a.(filters := []).groupBy && b.groupBy == b.(filters := []).groupBy;
    assert a.orderBy == a.(filters := []).orderBy && b.orderBy == b.(filters := []).orderBy;
    assert a.limit == a.(filters := []).limit && b.limit == b.(filters := []).limit;
    hide MapAll, PathOf, SourceOf, JoinOf, OrderOf, FiltersOf, SameShape;
  }

  // --------------------------------------------------------------- refusals

  ghost predicate GoodFilter(f: QueryFilter)
  {
    && PathOf(f.field).Some?
    && (f.value == Null ==> f.operator in {Eq, NotEq, IsNullOp, IsNotNullOp})
    && (f.operator == InList ==> f.value.Array? && f.value.items != [] && Null !in f.value.items)
  }

  lemma FilterAcceptedIff(d: Dialect, f: QueryFilter, used: nat)
    ensures FilterOf(d, f, used).Some? <==> GoodFilter(f)
  {
    hide PathOf, ScalarString, Symbol;
  }

  lemma {:induction false} FiltersAcceptedIff(d: Dialect, fs: seq<QueryFilter>)
    ensures FiltersOf(d, fs).Some? <==> forall i :: 0 <= i < |fs| ==> GoodFilter(fs[i])
  {
    hide GoodFilter, FilterOf;
    if fs != [] {
      var n := |fs| - 1;
      FiltersAcceptedIff(d, fs[..n]);
      assert forall i :: 0 <= i < n ==> fs[..n][i] == fs[i];
      var before := FiltersOf(d, fs[..n]);
      if before.Some? {
        FilterAcceptedIff(d, fs[n], |before.value.1|);
      }
    }
  }

  /** Everything a specification is refused for. */
  lemma AcceptedIff(d: Dialect, spec: QuerySpec)
    ensures Meaning(d, spec).Some? <==>
      && spec.columns != []
      && (forall i :: 0 <= i < |spec.columns| ==> PathOf(spec.columns[i]).Some?)
      && SourceOf(spec.source).Some?
      && (forall i :: 0 <= i < |spec.joins| ==> JoinOf(spec.joins[i]).Some?)
      && (forall i :: 0 <= i < |spec.filters| ==> GoodFilter(spec.filters[i]))
      && (forall i :: 0 <= i < |spec.groupBy| ==> PathOf(spec.groupBy[i]).Some?)
      && (forall i :: 0 <= i < |spec.orderBy| ==> OrderOf(spec.orderBy[i]).Some?)
  {
    FiltersAcceptedIff(d, spec.filters);
    hide PathOf, SourceOf, JoinOf, OrderOf, FiltersOf, GoodFilter;
  }
}
