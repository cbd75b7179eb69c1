/** The statements the builder prints, as syntax trees, with a parser that recovers the tree
    from the tokens. */
module SqlGrammar {
  import opened Prelude
  import opened SqlText

  datatype Segment = Any | Named(name: string)

  type Path = seq<Segment>

  datatype JoinKind = Inner | Left | Right | Full

  datatype Join = Join(kind: JoinKind, target: Path, left: Path, right: Path)

  datatype Clause =
    | Compare(field: Path, symbol: string, hole: Option<nat>)
    | Like(field: Path, hole: Option<nat>)
    | In(field: Path, holes: seq<Option<nat>>)
    | IsNull(field: Path)
    | IsNotNull(field: Path)

  datatype Order = Order(field: Path, descending: bool)

  datatype Select = Select(
    columns: seq<Path>,
    source: Path,
    joins: seq<Join>,
    filters: seq<Clause>,
    groupBy: seq<Path>,
    orderBy: seq<Order>,
    limit: Option<nat>
  )

  // ------------------------------------------------------- separated lists

  function PrintSep<X>(xs: seq<X>, emit: X -> seq<Token>, sep: seq<Token>): seq<Token>
  {
    if xs == [] then [] else if |xs| == 1 then emit(xs[0])
    else emit(xs[0]) + (sep + PrintSep(xs[1..], emit, sep))
  }

  function ParseSep<X>(ts: seq<Token>, parse: seq<Token> -> Option<(X, seq<Token>)>, sep: seq<Token>)
    : Option<(seq<X>, seq<Token>)>
    requires sep != []
    decreases |ts|
  {
    match parse(ts)
    case None => None
    case Some((x, rest)) =>
      if |rest| > |ts| then None
      else if sep <= rest then
        match ParseSep(rest[|sep|..], parse, sep)
        case None => None
        case Some((xs, last)) => Some(([x] + xs, last))
      else Some(([x], rest))
  }

  /** Parsing undoes printing in front of everything that may follow. */
  ghost predicate Inverts<X>(emit: X -> seq<Token>, parse: seq<Token> -> Option<(X, seq<Token>)>,
                             follow: seq<Token> -> bool, x: X)
  {
    forall rest :: follow(rest) ==> parse(emit(x) + rest) == Some((x, rest))
  }

  lemma PrintSepMore<X>(xs: seq<X>, emit: X -> seq<Token>, sep: seq<Token>, rest: seq<Token>)
    requires |xs| > 1
    ensures PrintSep(xs, emit, sep) + rest == emit(xs[0]) + (sep + (PrintSep(xs[1..], emit, sep) + rest))
  {
  }

  lemma ParseSepMore<X>(ts: seq<Token>, parse: seq<Token> -> Option<(X, seq<Token>)>, sep: seq<Token>, x: X,
                        after: seq<Token>)
    requires sep != [] && parse(ts) == Some((x, sep + after)) && |sep + after| <= |ts|
    requires ParseSep(after, parse, sep).Some?
    ensures ParseSep(ts, parse, sep) ==
      Some(([x] + ParseSep(after, parse, sep).value.0, ParseSep(after, parse, sep).value.1))
  {
    assert (sep + after)[|sep|..] == after && sep <= sep + after;
  }

  lemma {:induction false} SepInverts<X>(xs: seq<X>, emit: X -> seq<Token>,
                                         parse: seq<Token> -> Option<(X, seq<Token>)>,
                                         sep: seq<Token>, follow: seq<Token> -> bool, rest: seq<Token>)
    requires xs != [] && sep != []
    requires forall i :: 0 <= i < |xs| ==> Inverts(emit, parse, follow, xs[i])
    requires forall r :: follow(sep + r)
    requires follow(rest) && !(sep <= rest)
    ensures ParseSep(PrintSep(xs, emit, sep) + rest, parse, sep) == Some((xs, rest))
    decreases |xs|
  {
    assert Inverts(emit, parse, follow, xs[0]);
    if |xs| == 1 {
      assert PrintSep(xs, emit, sep) == emit(xs[0]);
      assert xs == [xs[0]];
    } else {
      var tail := PrintSep(xs[1..], emit, sep);
      SepInverts(xs[1..], emit, parse, sep, follow, rest);
      PrintSepMore(xs, emit, sep, rest);
      assert follow(sep + (tail + rest));
      hide PrintSep, ParseSep;
      ParseSepMore(PrintSep(xs, emit, sep) + rest, parse, sep, xs[0], tail + rest);
      assert [xs[0]] + xs[1..] == xs;
    }
  }

  /** A clause that is printed only when its list is not empty. */
  function PrintSection<X>(header: seq<Token>, xs: seq<X>, emit: X -> seq<Token>, sep: seq<Token>): seq<Token>
  {
    if xs == [] then [] else header + PrintSep(xs, emit, sep)
  }

  function ParseSection<X>(header: seq<Token>, ts: seq<Token>, parse: seq<Token> -> Option<(X, seq<Token>)>,
                           sep: seq<Token>): Option<(seq<X>, seq<Token>)>
    requires sep != []
  {
    if header <= ts then ParseSep(ts[|header|..], parse, sep) else Some(([], ts))
  }

  lemma SectionInverts<X>(header: seq<Token>, xs: seq<X>, emit: X -> seq<Token>,
                          parse: seq<Token> -> Option<(X, seq<Token>)>, sep: seq<Token>,
                          follow: seq<Token> -> bool, rest: seq<Token>)
    requires sep != [] && !(header <= rest)
    requires forall i :: 0 <= i < |xs| ==> Inverts(emit, parse, follow, xs[i])
    requires forall r :: follow(sep + r)
    requires follow(rest) && !(sep <= rest)
    ensures ParseSection(header, PrintSection(header, xs, emit, sep) + rest, parse, sep) == Some((xs, rest))
  {
    if xs == [] {
      assert PrintSection(header, xs, emit, sep) + rest == rest;
    } else {
      SepInverts(xs, emit, parse, sep, follow, rest);
      var body := PrintSep(xs, emit, sep);
      assert PrintSection(header, xs, emit, sep) + rest == header + (body + rest);
      assert (header + (body + rest))[|header|..] == body + rest;
    }
  }

  // ------------------------------------------------------------------- paths

  function SegmentTokens(s: Segment): seq<Token>
  {
    match s case Any => [Star] case Named(n) => [Name(n)]
  }

  function ParseSegment(ts: seq<Token>): Option<(Segment, seq<Token>)>
  {
    if ts == [] then None else
    match ts[0]
    case Star => Some((Any, ts[1..]))
    case Name(n) => Some((Named(n), ts[1..]))
    case _ => None
  }

  function PathTokens(p: Path): seq<Token>
  {
    PrintSep(p, SegmentTokens, [Dot])
  }

  function ParsePath(ts: seq<Token>): Option<(Path, seq<Token>)>
  {
    ParseSep(ts, ParseSegment, [Dot])
  }

  predicate NoDot(ts: seq<Token>)
  {
    ts == [] || ts[0] != Dot
  }

  lemma PathInverts(p: Path)
    requires p != []
    ensures Inverts(PathTokens, ParsePath, NoDot, p)
  {
    var always := (ts: seq<Token>) => true;
    forall i | 0 <= i < |p|
      ensures Inverts(SegmentTokens, ParseSegment, always, p[i])
    {
      forall rest
        ensures ParseSegment(SegmentTokens(p[i]) + rest) == Some((p[i], rest))
      {
        assert (SegmentTokens(p[i]) + rest)[1..] == rest;
      }
    }
    forall rest | NoDot(rest)
      ensures ParsePath(PathTokens(p) + rest) == Some((p, rest))
    {
      SepInverts(p, SegmentTokens, ParseSegment, [Dot], always, rest);
    }
  }

  // ----------------------------------------------------------------- clauses

  function LikeWord(d: Dialect): string
  {
    if d == Postgres then "ILIKE" else "LIKE"
  }

  function HoleTokens(index: Option<nat>): seq<Token>
  {
    [Hole(index)]
  }

  function ParseHole(ts: seq<Token>): Option<(Option<nat>, seq<Token>)>
  {
    if ts != [] && ts[0].Hole? then Some((ts[0].index, ts[1..])) else None
  }

  /** The part of a clause after its field. */
  function ClauseTail(d: Dialect, c: Clause): seq<Token>
  {
    match c
    case Compare(_, symbol, hole) => [Space, Op(symbol), Space, Hole(hole)]
    case Like(_, hole) => [Space, Word(LikeWord(d)), Space, Hole(hole)]
    case In(_, holes) => [Space, Word("IN"), Space, Open] + PrintSep(holes, HoleTokens, [Comma, Space]) + [Close]
    case IsNull(_) => [Space, Word("IS"), Space, Word("NULL")]
    case IsNotNull(_) => [Space, Word("IS"), Space, Word("NOT"), Space, Word("NULL")]
  }

  function ClauseTokens(d: Dialect, c: Clause): seq<Token>
  {
    PathTokens(c.field) + ClauseTail(d, c)
  }

  function ParseClauseTail(d: Dialect, field: Path, ts: seq<Token>): Option<(Clause, seq<Token>)>
  {
    if |ts| < 4 || ts[0] != Space || ts[2] != Space then None
    else if ts[1].Op? && ts[3].Hole? then Some((Compare(field, ts[1].symbol, ts[3].index), ts[4..]))
    else if ts[1] == Word(LikeWord(d)) && ts[3].Hole? then Some((Like(field, ts[3].index), ts[4..]))
    else if ts[1] == Word("IS") && ts[3] == Word("NULL") then Some((IsNull(field), ts[4..]))
    else if ts[1] == Word("IS") && ts[3] == Word("NOT") && |ts| >= 6 && ts[4] == Space && ts[5] == Word("NULL") then
      Some((IsNotNull(field), ts[6..]))
    else if ts[1] == Word("IN") && ts[3] == Open then ParseIn(field, ts[4..])
    else None
  }

  function ParseIn(field: Path, ts: seq<Token>): Option<(Clause, seq<Token>)>
  {
    match ParseSep(ts, ParseHole, [Comma, Space])
    case None => None
    case Some((holes, rest)) => if rest != [] && rest[0] == Close then Some((In(field, holes), rest[1..])) else None
  }

  function ParseClause(d: Dialect, ts: seq<Token>): Option<(Clause, seq<Token>)>
  {
    match ParsePath(ts)
    case None => None
    case Some((field, rest)) => ParseClauseTail(d, field, rest)
  }

  predicate WellClause(c: Clause)
  {
    && c.field != []
    && (c.Compare? ==> c.symbol in OPERATORS)
    && (c.In? ==> c.holes != [])
  }

  lemma HolesInvert(holes: seq<Option<nat>>, rest: seq<Token>)
    requires holes != []
    ensures ParseSep(PrintSep(holes, HoleTokens, [Comma, Space]) + ([Close] + rest), ParseHole, [Comma, Space])
         == Some((holes, [Close] + rest))
  {
    var always := (ts: seq<Token>) => true;
    forall i | 0 <= i < |holes|
      ensures Inverts(HoleTokens, ParseHole, always, holes[i])
    {
      forall r
        ensures ParseHole(HoleTokens(holes[i]) + r) == Some((holes[i], r))
      {
        assert (HoleTokens(holes[i]) + r)[1..] == r;
      }
    }
    NotPrefix([Comma, Space], [Close] + rest);
    SepInverts(holes, HoleTokens, ParseHole, [Comma, Space], always, [Close] + rest);
  }

  lemma NotPrefix(sep: seq<Token>, ts: seq<Token>)
    requires sep != [] && (ts == [] || ts[0] != sep[0])
    ensures !(sep <= ts)
  {
  }

  lemma InReads(field: Path, holes: seq<Option<nat>>, rest: seq<Token>)
    requires holes != []
    ensures ParseIn(field, PrintSep(holes, HoleTokens, [Comma, Space]) + ([Close] + rest))
         == Some((In(field, holes), rest))
  {
    hide PrintSep, ParseSep;
    HolesInvert(holes, rest);
    assert ([Close] + rest)[1..] == rest;
  }

  lemma InTailInverts(d: Dialect, field: Path, holes: seq<Option<nat>>, rest: seq<Token>)
    requires holes != []
    ensures ParseClauseTail(d, field, ClauseTail(d, In(field, holes)) + rest) == Some((In(field, holes), rest))
  {
    hide PrintSep, ParseSep, ParseIn;
    var tail := PrintSep(holes, HoleTokens, [Comma, Space]) + ([Close] + rest);
    InReads(field, holes, rest);
    var ts := ClauseTail(d, In(field, holes)) + rest;
    assert ts == [Space, Word("IN"), Space, Open] + tail;
    assert ts[4..] == tail;
  }

  lemma TailInverts(d: Dialect, c: Clause, rest: seq<Token>)
    requires WellClause(c)
    ensures ParseClauseTail(d, c.field, ClauseTail(d, c) + rest) == Some((c, rest))
  {
    if c.In? {
      InTailInverts(d, c.field, c.holes, rest);
    } else {
      hide PrintSep, ParseSep;
      var ts := ClauseTail(d, c) + rest;
      assert ts[|ClauseTail(d, c)|..] == rest;
      assert forall i :: 0 <= i < |ClauseTail(d, c)| ==> ts[i] == ClauseTail(d, c)[i];
    }
  }

  lemma ClauseInverts(d: Dialect, c: Clause)
    requires WellClause(c)
    ensures Inverts((x: Clause) => ClauseTokens(d, x),
                    (ts: seq<Token>) => ParseClause(d, ts), (ts: seq<Token>) => true, c)
  {
    PathInverts(c.field);
    forall rest
      ensures ParseClause(d, ClauseTokens(d, c) + rest) == Some((c, rest))
    {
      var tail := ClauseTail(d, c) + rest;
      assert ClauseTokens(d, c) + rest == PathTokens(c.field) + tail;
      assert NoDot(tail) by { TailStarts(d, c, rest); }
      TailInverts(d, c, rest);
      hide ParseClauseTail, ClauseTail, PathTokens, ParsePath;
    }
  }

  lemma TailStarts(d: Dialect, c: Clause, rest: seq<Token>)
    ensures NoDot(ClauseTail(d, c) + rest)
  {
  }

  // ------------------------------------------------------------------- order

  function Direction(descending: bool): string
  {
    if descending then "DESC" else "ASC"
  }

  function OrderTokens(o: Order): seq<Token>
  {
    PathTokens(o.field) + [Space, Word(Direction(o.descending))]
  }

  function ParseOrder(ts: seq<Token>): Option<(Order, seq<Token>)>
  {
    match ParsePath(ts)
    case None => None
    case Some((field, rest)) =>
      if |rest| < 2 || rest[0] != Space then None
      else if rest[1] == Word("DESC") then Some((Order(field, true), rest[2..]))
      else if rest[1] == Word("ASC") then Some((Order(field, false), rest[2..]))
      else None
  }

  lemma OrderInverts(o: Order)
    requires o.field != []
    ensures Inverts(OrderTokens, ParseOrder, (ts: seq<Token>) => true, o)
  {
    hide OrderTokens, ParseOrder;
    forall rest
      ensures ParseOrder(OrderTokens(o) + rest) == Some((o, rest))
    {
      OrderReads(o, rest);
    }
  }

  lemma OrderReads(o: Order, rest: seq<Token>)
    requires o.field != []
    ensures ParseOrder(OrderTokens(o) + rest) == Some((o, rest))
  {
    var direction := Word(Direction(o.descending));
    var tail := [Space, direction] + rest;
    assert tail[0] == Space && tail[1] == direction && tail[2..] == rest;
    assert OrderTokens(o) + rest == PathTokens(o.field) + tail;
    PathReads(o.field, tail);
    hide PathTokens, ParsePath;
  }

  /** A path followed by anything but a dot is read back. */
  lemma PathReads(p: Path, rest: seq<Token>)
    requires p != [] && NoDot(rest)
    ensures ParsePath(PathTokens(p) + rest) == Some((p, rest))
  {
    PathInverts(p);
    hide PathTokens, ParsePath;
  }

  // ------------------------------------------------------------------- joins

  function KindWord(k: JoinKind): string
  {
    match k case Inner => "INNER" case Left => "LEFT" case Right => "RIGHT" case Full => "FULL"
  }

  function KindOf(w: string): Option<JoinKind>
  {
    if w == "INNER" then Some(Inner) else if w == "LEFT" then Some(Left)
    else if w == "RIGHT" then Some(Right) else if w == "FULL" then Some(Full) else None
  }

  function JoinTokens(j: Join): seq<Token>
  {
    [Space, Word(KindWord(j.kind)), Space, Word("JOIN"), Space] + PathTokens(j.target)
    + [Space, Word("ON"), Space] + PathTokens(j.left)
    + [Space, Op("="), Space] + PathTokens(j.right)
  }

  function JoinsTokens(joins: seq<Join>): seq<Token>
  {
    if joins == [] then [] else JoinTokens(joins[0]) + JoinsTokens(joins[1..])
  }

  function Expect(header: seq<Token>, ts: seq<Token>): Option<seq<Token>>
  {
    if header <= ts then Some(ts[|header|..]) else None
  }

  /** A path after fixed tokens. */
  function ParseAfter(header: seq<Token>, ts: seq<Token>): Option<(Path, seq<Token>)>
  {
    match Expect(header, ts)
    case None => None
    case Some(rest) => ParsePath(rest)
  }

  predicate StartsJoin(ts: seq<Token>)
  {
    |ts| >= 2 && ts[0] == Space && ts[1].Word? && KindOf(ts[1].word).Some?
  }

  function ParseJoin(ts: seq<Token>): Option<(Join, seq<Token>)>
    requires StartsJoin(ts)
  {
    var kind := KindOf(ts[1].word).value;
    match ParseAfter([Space, Word("JOIN"), Space], ts[2..])
    case None => None
    case Some((target, afterTarget)) =>
      match ParseAfter([Space, Word("ON"), Space], afterTarget)
      case None => None
      case Some((left, afterLeft)) =>
        match ParseAfter([Space, Op("="), Space], afterLeft)
        case None => None
        case Some((right, rest)) => Some((Join(kind, target, left, right), rest))
  }

  function ParseJoins(ts: seq<Token>): Option<(seq<Join>, seq<Token>)>
    decreases |ts|
  {
    if !StartsJoin(ts) then Some(([], ts)) else
    match ParseJoin(ts)
    case None => None
    case Some((j, rest)) =>
      if |rest| >= |ts| then None else
      match ParseJoins(rest)
      case None => None
      case Some((js, last)) => Some(([j] + js, last))
  }

  lemma AfterInverts(header: seq<Token>, p: Path, rest: seq<Token>)
    requires p != [] && NoDot(rest)
    ensures ParseAfter(header, header + (PathTokens(p) + rest)) == Some((p, rest))
  {
    PathReads(p, rest);
    hide PathTokens, ParsePath;
    assert (header + (PathTokens(p) + rest))[|header|..] == PathTokens(p) + rest;
  }

  predicate WellJoin(j: Join)
  {
    j.target != [] && j.left != [] && j.right != []
  }

  lemma JoinInverts(j: Join, rest: seq<Token>)
    requires WellJoin(j) && NoDot(rest)
    ensures StartsJoin(JoinTokens(j) + rest) && ParseJoin(JoinTokens(j) + rest) == Some((j, rest))
    ensures |JoinTokens(j)| > 0
  {
    hide PathTokens, ParseAfter;
    var h1, h2, h3 := [Space, Word("JOIN"), Space], [Space, Word("ON"), Space], [Space, Op("="), Space];
    var t3 := h3 + (PathTokens(j.right) + rest);
    var t2 := h2 + (PathTokens(j.left) + t3);
    var t1 := h1 + (PathTokens(j.target) + t2);
    var ts := JoinTokens(j) + rest;
    assert ts == [Space, Word(KindWord(j.kind))] + t1;
    assert ts[2..] == t1;
    AfterInverts(h1, j.target, t2);
    AfterInverts(h2, j.left, t3);
    AfterInverts(h3, j.right, rest);
  }

  lemma JoinStartsSpaced(j: Join, rest: seq<Token>)
    ensures NoDot(JoinTokens(j) + rest)
  {
  }

  lemma JoinAndMore(joins: seq<Join>, rest: seq<Token>)
    requires joins != []
    ensures JoinsTokens(joins) + rest == JoinTokens(joins[0]) + (JoinsTokens(joins[1..]) + rest)
  {
    hide JoinTokens;
  }

  lemma {:induction false} JoinsInvert(joins: seq<Join>, rest: seq<Token>)
    requires forall i :: 0 <= i < |joins| ==> WellJoin(joins[i])
    requires NoDot(rest) && !StartsJoin(rest)
    ensures ParseJoins(JoinsTokens(joins) + rest) == Some((joins, rest))
    ensures NoDot(JoinsTokens(joins) + rest)
    decreases |joins|
  {
    if joins == [] {
      assert JoinsTokens(joins) + rest == rest;
    } else {
      var tail := JoinsTokens(joins[1..]) + rest;
      JoinsInvert(joins[1..], rest);
      JoinAndMore(joins, rest);
      JoinInverts(joins[0], tail);
      JoinStartsSpaced(joins[0], tail);
      hide JoinTokens, ParseJoin, StartsJoin, NoDot, JoinsTokens;
      assert [joins[0]] + joins[1..] == joins;
    }
  }

  // --------------------------------------------------------------- statements

  const COMMA: seq<Token> := [Comma, Space]
  const WHERE: seq<Token> := [Space, Word("WHERE"), Space]
  const AND: seq<Token> := [Space, Word("AND"), Space]
  const GROUP_BY: seq<Token> := [Space, Word("GROUP"), Space, Word("BY"), Space]
  const ORDER_BY: seq<Token> := [Space, Word("ORDER"), Space, Word("BY"), Space]
  const LIMIT: seq<Token> := [Space, Word("LIMIT"), Space]

  function TopTokens(d: Dialect, limit: Option<nat>): seq<Token>
  {
    if d == SqlServer && limit.Some? then [Word("TOP"), Space, Open, Number(limit.value), Close, Space] else []
  }

  function LimitTokens(d: Dialect, limit: Option<nat>): seq<Token>
  {
    if d != SqlServer && limit.Some? then LIMIT + [Number(limit.value)] else []
  }

  function SelectTokens(d: Dialect, q: Select): seq<Token>
  {
    [Word("SELECT"), Space] + TopTokens(d, q.limit) + PrintSep(q.columns, PathTokens, COMMA)
    + [Space, Word("FROM"), Space] + PathTokens(q.source)
    + JoinsTokens(q.joins)
    + PrintSection(WHERE, q.filters, (c: Clause) => ClauseTokens(d, c), AND)
    + PrintSection(GROUP_BY, q.groupBy, PathTokens, COMMA)
    + PrintSection(ORDER_BY, q.orderBy, OrderTokens, COMMA)
    + LimitTokens(d, q.limit)
  }

  function ParseTop(ts: seq<Token>): Option<(Option<nat>, seq<Token>)>
  {
    if ts == [] || ts[0] != Word("TOP") then Some((None, ts))
    else if |ts| >= 6 && ts[1] == Space && ts[2] == Open && ts[3].Number? && ts[4] == Close && ts[5] == Space then
      Some((Some(ts[3].value), ts[6..]))
    else None
  }

  function ParseLimit(ts: seq<Token>): Option<Option<nat>>
  {
    if ts == [] then Some(None)
    else if |ts| == 4 && ts[..3] == LIMIT && ts[3].Number? then Some(Some(ts[3].value))
    else None
  }

  /** Everything after the source. */
  function ParseRest(d: Dialect, top: Option<nat>, columns: seq<Path>, source: Path, ts: seq<Token>): Option<Select>
  {
    match ParseJoins(ts)
    case None => None
    case Some((joins, ts1)) =>
      match ParseSection(WHERE, ts1, (t: seq<Token>) => ParseClause(d, t), AND)
      case None => None
      case Some((filters, ts2)) =>
        match ParseSection(GROUP_BY, ts2, ParsePath, COMMA)
        case None => None
        case Some((groupBy, ts3)) =>
          match ParseSection(ORDER_BY, ts3, ParseOrder, COMMA)
          case None => None
          case Some((orderBy, ts4)) =>
            match ParseLimit(ts4)
            case None => None
            case Some(limit) =>
              Some(Select(columns, source, joins, filters, groupBy, orderBy, if top.Some? then top else limit))
  }

  function ParseSelect(d: Dialect, ts: seq<Token>): Option<Select>
  {
    match Expect([Word("SELECT"), Space], ts)
    case None => None
    case Some(ts0) =>
      match ParseTop(ts0)
      case None => None
      case Some((top, ts1)) => ParseBody(d, top, ts1)
  }

  /** Everything from the columns on. */
  function ParseBody(d: Dialect, top: Option<nat>, ts: seq<Token>): Option<Select>
  {
    match ParseSep(ts, ParsePath, COMMA)
    case None => None
    case Some((columns, ts1)) =>
      match ParseAfter([Space, Word("FROM"), Space], ts1)
      case None => None
      case Some((source, ts2)) => ParseRest(d, top, columns, source, ts2)
  }

  predicate WellSelect(q: Select)
  {
    && q.columns != [] && (forall i :: 0 <= i < |q.columns| ==> q.columns[i] != [])
    && q.source != []
    && (forall i :: 0 <= i < |q.joins| ==> WellJoin(q.joins[i]))
    && (forall i :: 0 <= i < |q.filters| ==> WellClause(q.filters[i]))
    && (forall i :: 0 <= i < |q.groupBy| ==> q.groupBy[i] != [])
    && (forall i :: 0 <= i < |q.orderBy| ==> q.orderBy[i].field != [])
  }

  /** Nothing, or a space and one of these words. */
  predicate Opens(ts: seq<Token>, words: set<string>)
  {
    ts == [] || (|ts| >= 2 && ts[0] == Space && ts[1].Word? && ts[1].word in words)
  }

  lemma OpensNot(ts: seq<Token>, words: set<string>, header: seq<Token>)
    requires Opens(ts, words)
    requires |header| >= 2 && header[0] == Space && header[1].Word? && header[1].word !in words
    ensures !(header <= ts)
  {
  }

  lemma SectionOpens<X>(header: seq<Token>, xs: seq<X>, emit: X -> seq<Token>, sep: seq<Token>, rest: seq<Token>,
                        words: set<string>, w: string)
    requires |header| >= 2 && header[0] == Space && header[1] == Word(w) && w in words && Opens(rest, words)
    ensures Opens(PrintSection(header, xs, emit, sep) + rest, words)
  {
    var ts := PrintSection(header, xs, emit, sep) + rest;
    if xs == [] {
      assert ts == rest;
    } else {
      assert ts[0] == header[0] && ts[1] == header[1];
    }
  }

  lemma CommaEnds(ts: seq<Token>)
    requires ts == [] || ts[0] == Space
    ensures NoDot(ts) && !(COMMA <= ts) && forall r: seq<Token> :: NoDot(COMMA + r)
  {
    NotPrefix(COMMA, ts);
    forall r: seq<Token>
      ensures NoDot(COMMA + r)
    {
      assert (COMMA + r)[0] == Comma;
    }
  }

  lemma PathsInvert(ps: seq<Path>)
    requires forall i :: 0 <= i < |ps| ==> ps[i] != []
    ensures forall i :: 0 <= i < |ps| ==> Inverts(PathTokens, ParsePath, NoDot, ps[i])
  {
    hide Inverts;
    forall i | 0 <= i < |ps|
      ensures Inverts(PathTokens, ParsePath, NoDot, ps[i])
    {
      PathInverts(ps[i]);
    }
  }

  lemma GroupInverts(ps: seq<Path>, rest: seq<Token>)
    requires (forall i :: 0 <= i < |ps| ==> ps[i] != []) && Opens(rest, {"ORDER", "LIMIT"})
    ensures ParseSection(GROUP_BY, PrintSection(GROUP_BY, ps, PathTokens, COMMA) + rest, ParsePath, COMMA)
         == Some((ps, rest))
  {
    PathsInvert(ps);
    OpensNot(rest, {"ORDER", "LIMIT"}, GROUP_BY);
    CommaEnds(rest);
    hide Inverts, PathTokens, ParsePath;
    SectionInverts(GROUP_BY, ps, PathTokens, ParsePath, COMMA, NoDot, rest);
  }

  lemma OrdersInvert(os: seq<Order>, rest: seq<Token>)
    requires (forall i :: 0 <= i < |os| ==> os[i].field != []) && Opens(rest, {"LIMIT"})
    ensures ParseSection(ORDER_BY, PrintSection(ORDER_BY, os, OrderTokens, COMMA) + rest, ParseOrder, COMMA)
         == Some((os, rest))
  {
    var always := (ts: seq<Token>) => true;
    forall i | 0 <= i < |os|
      ensures Inverts(OrderTokens, ParseOrder, always, os[i])
    {
      OrderInverts(os[i]);
    }
    OpensNot(rest, {"LIMIT"}, ORDER_BY);
    CommaEnds(rest);
    SectionInverts(ORDER_BY, os, OrderTokens, ParseOrder, COMMA, always, rest);
  }

  lemma FiltersInvert(d: Dialect, cs: seq<Clause>, rest: seq<Token>)
    requires (forall i :: 0 <= i < |cs| ==> WellClause(cs[i])) && Opens(rest, {"GROUP", "ORDER", "LIMIT"})
    ensures ParseSection(WHERE, PrintSection(WHERE, cs, (c: Clause) => ClauseTokens(d, c), AND) + rest,
                         (t: seq<Token>) => ParseClause(d, t), AND)
         == Some((cs, rest))
  {
    var always := (ts: seq<Token>) => true;
    var emit := (c: Clause) => ClauseTokens(d, c);
    var parse := (t: seq<Token>) => ParseClause(d, t);
    forall i | 0 <= i < |cs|
      ensures Inverts(emit, parse, always, cs[i])
    {
      ClauseInverts(d, cs[i]);
      forall r
        ensures parse(emit(cs[i]) + r) == Some((cs[i], r))
      {
      }
    }
    OpensNot(rest, {"GROUP", "ORDER", "LIMIT"}, WHERE);
    OpensNot(rest, {"GROUP", "ORDER", "LIMIT"}, AND);
    SectionInverts(WHERE, cs, emit, parse, AND, always, rest);
  }

  lemma LimitInverts(d: Dialect, limit: Option<nat>)
    ensures ParseLimit(LimitTokens(d, limit)) == Some(if d == SqlServer then None else limit)
    ensures Opens(LimitTokens(d, limit), {"LIMIT"})
  {
    if d != SqlServer && limit.Some? {
      assert LimitTokens(d, limit)[..3] == LIMIT;
    }
  }

  lemma OpensMore(ts: seq<Token>, few: set<string>, many: set<string>)
    requires Opens(ts, few) && few <= many
    ensures Opens(ts, many)
  {
  }

  ghost function RestTokens(d: Dialect, q: Select): seq<Token>
  {
    JoinsTokens(q.joins)
    + (PrintSection(WHERE, q.filters, (c: Clause) => ClauseTokens(d, c), AND)
       + (PrintSection(GROUP_BY, q.groupBy, PathTokens, COMMA)
          + (PrintSection(ORDER_BY, q.orderBy, OrderTokens, COMMA) + LimitTokens(d, q.limit))))
  }

  ghost function BodyTokens(d: Dialect, q: Select): seq<Token>
  {
    PrintSep(q.columns, PathTokens, COMMA) + ([Space, Word("FROM"), Space] + (PathTokens(q.source) + RestTokens(d, q)))
  }

  lemma RestInverts(d: Dialect, q: Select, top: Option<nat>)
    requires WellSelect(q) && top == (if d == SqlServer then q.limit else None)
    ensures NoDot(RestTokens(d, q)) && ParseRest(d, top, q.columns, q.source, RestTokens(d, q)) == Some(q)
  {
    var limit := LimitTokens(d, q.limit);
    var order := PrintSection(ORDER_BY, q.orderBy, OrderTokens, COMMA) + limit;
    var group := PrintSection(GROUP_BY, q.groupBy, PathTokens, COMMA) + order;
    var emit := (c: Clause) => ClauseTokens(d, c);
    var filters := PrintSection(WHERE, q.filters, emit, AND) + group;
    hide PrintSection, ParseSection, JoinsTokens, ParseJoins, ParseLimit, LimitTokens, Opens, PathTokens, OrderTokens;
    LimitInverts(d, q.limit);
    OrdersInvert(q.orderBy, limit);
    OpensMore(limit, {"LIMIT"}, {"ORDER", "LIMIT"});
    SectionOpens(ORDER_BY, q.orderBy, OrderTokens, COMMA, limit, {"ORDER", "LIMIT"}, "ORDER");
    GroupInverts(q.groupBy, order);
    OpensMore(order, {"ORDER", "LIMIT"}, {"GROUP", "ORDER", "LIMIT"});
    SectionOpens(GROUP_BY, q.groupBy, PathTokens, COMMA, order, {"GROUP", "ORDER", "LIMIT"}, "GROUP");
    FiltersInvert(d, q.filters, group);
    OpensMore(group, {"GROUP", "ORDER", "LIMIT"}, {"WHERE", "GROUP", "ORDER", "LIMIT"});
    SectionOpens(WHERE, q.filters, emit, AND, group, {"WHERE", "GROUP", "ORDER", "LIMIT"}, "WHERE");
    NoJoinAhead(filters);
    JoinsInvert(q.joins, filters);
  }

  lemma NoJoinAhead(ts: seq<Token>)
    requires Opens(ts, {"WHERE", "GROUP", "ORDER", "LIMIT"})
    ensures !StartsJoin(ts) && NoDot(ts)
  {
  }

  lemma TopInverts(d: Dialect, limit: Option<nat>, rest: seq<Token>)
    requires rest != [] && rest[0] != Word("TOP")
    ensures ParseTop(TopTokens(d, limit) + rest) == Some((if d == SqlServer then limit else None, rest))
  {
    var ts := TopTokens(d, limit) + rest;
    if d == SqlServer && limit.Some? {
      assert ts[6..] == rest;
    } else {
      assert ts == rest;
    }
  }

  lemma PathStarts(p: Path)
    requires p != []
    ensures PathTokens(p) != [] && (PathTokens(p)[0] == Star || PathTokens(p)[0].Name?)
  {
  }

  lemma ColumnsStart(ps: seq<Path>)
    requires ps != [] && ps[0] != []
    ensures var ts := PrintSep(ps, PathTokens, COMMA); ts != [] && ts[0] != Word("TOP")
  {
    PathStarts(ps[0]);
  }

  lemma BodyInverts(d: Dialect, q: Select, top: Option<nat>)
    requires WellSelect(q) && top == (if d == SqlServer then q.limit else None)
    ensures BodyTokens(d, q) != [] && BodyTokens(d, q)[0] != Word("TOP")
    ensures ParseBody(d, top, BodyTokens(d, q)) == Some(q)
  {
    RestInverts(d, q, top);
    ColumnsStart(q.columns);
    PathsInvert(q.columns);
    var source := [Space, Word("FROM"), Space] + (PathTokens(q.source) + RestTokens(d, q));
    hide PrintSep, ParseSep, RestTokens, PathTokens, ParsePath, ParseRest, ParseAfter, Inverts;
    AfterInverts([Space, Word("FROM"), Space], q.source, RestTokens(d, q));
    CommaEnds(source);
    SepInverts(q.columns, PathTokens, ParsePath, COMMA, NoDot, source);
  }

  /** The tokens of a statement, grouped from the right. */
  lemma Regroup(d: Dialect, q: Select)
    ensures SelectTokens(d, q) == [Word("SELECT"), Space] + (TopTokens(d, q.limit) + BodyTokens(d, q))
  {
    hide PrintSection, PrintSep, JoinsTokens, LimitTokens, TopTokens, PathTokens, OrderTokens;
  }

  /** Parsing inverts printing: the tokens of a statement determine its syntax tree. */
  lemma SelectInverts(d: Dialect, q: Select)
    requires WellSelect(q)
    ensures ParseSelect(d, SelectTokens(d, q)) == Some(q)
  {
    var top := if d == SqlServer then q.limit else None;
    var body := BodyTokens(d, q);
    Regroup(d, q);
    BodyInverts(d, q, top);
    hide BodyTokens, ParseBody, TopTokens, ParseTop, SelectTokens, WellSelect, Expect;
    TopInverts(d, q.limit, body);
    ExpectReads([Word("SELECT"), Space], TopTokens(d, q.limit) + body);
  }

  lemma ExpectReads(header: seq<Token>, rest: seq<Token>)
    ensures Expect(header, header + rest) == Some(rest)
  {
    assert (header + rest)[|header|..] == rest;
  }

  // ------------------------------------------------------------ printability

  predicate HolesFit(d: Dialect, c: Clause)
  {
    match c
    case Compare(_, _, hole) => ValidToken(d, Hole(hole))
    case Like(_, hole) => ValidToken(d, Hole(hole))
    case In(_, holes) => forall i :: 0 <= i < |holes| ==> ValidToken(d, Hole(holes[i]))
    case _ => true
  }

  predicate WellPath(p: Path)
  {
    p != [] && forall i :: 0 <= i < |p| ==> p[i].Named? ==> IsIdentifier(p[i].name)
  }

  /** A tree whose names are identifiers and whose placeholders fit the dialect. */
  predicate WellFormed(d: Dialect, q: Select)
  {
    && WellSelect(q)
    && (forall i :: 0 <= i < |q.columns| ==> WellPath(q.columns[i]))
    && WellPath(q.source)
    && (forall i :: 0 <= i < |q.joins| ==>
          WellPath(q.joins[i].target) && WellPath(q.joins[i].left) && WellPath(q.joins[i].right))
    && (forall i :: 0 <= i < |q.filters| ==> WellPath(q.filters[i].field) && HolesFit(d, q.filters[i]))
    && (forall i :: 0 <= i < |q.groupBy| ==> WellPath(q.groupBy[i]))
    && (forall i :: 0 <= i < |q.orderBy| ==> WellPath(q.orderBy[i].field))
  }

  /** Printable, and nothing before it can stick to it. */
  predicate Loose(d: Dialect, ts: seq<Token>)
  {
    Printable(d, ts) && (ts != [] ==> !Sticky(ts[0]))
  }

  /** Loose at both ends. */
  predicate Separator(d: Dialect, ts: seq<Token>)
  {
    Loose(d, ts) && ts != [] && !Sticky(ts[|ts| - 1])
  }

  lemma PrintableConcat(d: Dialect, a: seq<Token>, b: seq<Token>)
    requires Printable(d, a) && Loose(d, b)
    ensures Printable(d, a + b)
  {
    var ts := a + b;
    forall i | 0 <= i < |ts|
      ensures ValidToken(d, ts[i])
    {
    }
    forall i | 0 <= i < |ts| - 1
      ensures !(Sticky(ts[i]) && Sticky(ts[i + 1]))
    {
    }
  }

  lemma LooseConcat(d: Dialect, a: seq<Token>, b: seq<Token>)
    requires Loose(d, a) && Loose(d, b)
    ensures Loose(d, a + b) && Printable(d, a + b)
  {
    PrintableConcat(d, a, b);
  }

  lemma LooseIsPrintable(d: Dialect, ts: seq<Token>)
    requires Loose(d, ts)
    ensures Printable(d, ts)
  {
  }

  /** Behind tokens that end loosely anything printable may stand. */
  lemma EndThenAny(d: Dialect, start: seq<Token>, ts: seq<Token>)
    requires Printable(d, start) && start != [] && !Sticky(start[|start| - 1]) && Printable(d, ts)
    ensures Printable(d, start + ts)
  {
    var all := start + ts;
    forall i | 0 <= i < |all|
      ensures ValidToken(d, all[i])
    {
    }
    forall i | 0 <= i < |all| - 1
      ensures !(Sticky(all[i]) && Sticky(all[i + 1]))
    {
    }
  }

  lemma SepThenAny(d: Dialect, sep: seq<Token>, ts: seq<Token>)
    requires Separator(d, sep) && Printable(d, ts)
    ensures Loose(d, sep + ts)
  {
    EndThenAny(d, sep, ts);
  }

  lemma {:induction false} SepPrintable<X>(d: Dialect, xs: seq<X>, emit: X -> seq<Token>, sep: seq<Token>)
    requires forall i :: 0 <= i < |xs| ==> Printable(d, emit(xs[i]))
    requires Separator(d, sep)
    ensures Printable(d, PrintSep(xs, emit, sep))
    decreases |xs|
  {
    if xs == [] {
    } else {
      assert Printable(d, emit(xs[0]));
      if |xs| > 1 {
        hide Printable, Loose, Separator;
        var tail := PrintSep(xs[1..], emit, sep);
        SepPrintable(d, xs[1..], emit, sep);
        SepThenAny(d, sep, tail);
        PrintableConcat(d, emit(xs[0]), sep + tail);
      }
    }
  }

  lemma SectionLoose<X>(d: Dialect, header: seq<Token>, xs: seq<X>, emit: X -> seq<Token>, sep: seq<Token>)
    requires forall i :: 0 <= i < |xs| ==> Printable(d, emit(xs[i]))
    requires Separator(d, sep) && Separator(d, header)
    ensures Loose(d, PrintSection(header, xs, emit, sep))
  {
    if xs != [] {
      hide Printable, Loose, Separator, PrintSep;
      SepPrintable(d, xs, emit, sep);
      SepThenAny(d, header, PrintSep(xs, emit, sep));
    }
  }

  lemma Keywords()
    ensures IsKeyword("WHERE") && IsKeyword("AND") && IsKeyword("FROM") && IsKeyword("ON") && IsKeyword("IN")
    ensures IsKeyword("GROUP") && IsKeyword("ORDER") && IsKeyword("BY") && IsKeyword("LIMIT") && IsKeyword("JOIN")
    ensures IsKeyword("IS") && IsKeyword("NOT") && IsKeyword("NULL") && IsKeyword("ASC") && IsKeyword("DESC")
    ensures IsKeyword("LIKE") && IsKeyword("ILIKE") && IsKeyword("SELECT") && IsKeyword("TOP")
  {
  }

  lemma Spaced(d: Dialect, t: Token)
    requires ValidToken(d, t)
    ensures Separator(d, [Space, t, Space])
    ensures Loose(d, [Space, t]) && (!Sticky(t) ==> Loose(d, [t]))
  {
    hide ValidToken;
    assert ValidToken(d, Space) by { SpaceIsValid(d); }
  }

  lemma SpaceIsValid(d: Dialect)
    ensures ValidToken(d, Space) && ValidToken(d, Open) && ValidToken(d, Close) && ValidToken(d, Dot)
      && ValidToken(d, Comma)
  {
  }

  lemma SpacedPair(d: Dialect, t: Token, u: Token)
    requires ValidToken(d, t) && ValidToken(d, u)
    ensures Separator(d, [Space, t, Space, u, Space]) && Loose(d, [Space, t, Space, u])
  {
    hide ValidToken, Printable;
    Spaced(d, t);
    Spaced(d, u);
    LooseConcat(d, [Space, t], [Space, u, Space]);
    LooseConcat(d, [Space, t], [Space, u]);
    assert [Space, t] + [Space, u, Space] == [Space, t, Space, u, Space];
    assert [Space, t] + [Space, u] == [Space, t, Space, u];
  }

  lemma Commas(d: Dialect)
    ensures Separator(d, [Dot]) && Separator(d, COMMA) && Loose(d, [Close])
  {
    hide ValidToken;
    SpaceIsValid(d);
  }

  lemma Fixed(d: Dialect)
    ensures Separator(d, [Dot]) && Separator(d, COMMA) && Separator(d, AND)
    ensures Separator(d, WHERE) && Separator(d, GROUP_BY) && Separator(d, ORDER_BY)
  {
    Keywords();
    hide IsKeyword, Separator, Loose, Printable;
    Commas(d);
    Spaced(d, Word("AND"));
    Spaced(d, Word("WHERE"));
    SpacedPair(d, Word("GROUP"), Word("BY"));
    SpacedPair(d, Word("ORDER"), Word("BY"));
  }

  lemma FixedInside(d: Dialect)
    ensures Separator(d, [Space, Word("FROM"), Space])
    ensures Separator(d, [Space, Word("ON"), Space]) && Separator(d, [Space, Op("="), Space])
    ensures Separator(d, [Space, Word("IN"), Space, Open]) && Loose(d, [Close])
  {
    Keywords();
    Commas(d);
    hide IsKeyword, Printable;
    Spaced(d, Word("FROM"));
    Spaced(d, Word("ON"));
    Spaced(d, Op("="));
    Spaced(d, Word("IN"));
    Spaced(d, Open);
    LooseConcat(d, [Space, Word("IN"), Space], [Open]);
    assert [Space, Word("IN"), Space] + [Open] == [Space, Word("IN"), Space, Open];
  }

  lemma PathLoose(d: Dialect, p: Path)
    requires WellPath(p)
    ensures Loose(d, PathTokens(p))
  {
    PathStarts(p);
    Fixed(d);
    SepPrintable(d, p, SegmentTokens, [Dot]);
  }

  lemma HolePrintable(d: Dialect, hole: Option<nat>)
    requires ValidToken(d, Hole(hole))
    ensures Printable(d, HoleTokens(hole))
  {
    hide ValidToken;
  }

  lemma HolesPrintable(d: Dialect, holes: seq<Option<nat>>)
    requires forall i :: 0 <= i < |holes| ==> ValidToken(d, Hole(holes[i]))
    ensures Printable(d, PrintSep(holes, HoleTokens, COMMA))
  {
    Fixed(d);
    hide Printable, Loose, Separator, PrintSep, ValidToken;
    forall i | 0 <= i < |holes|
      ensures Printable(d, HoleTokens(holes[i]))
    {
      HolePrintable(d, holes[i]);
    }
    SepPrintable(d, holes, HoleTokens, COMMA);
  }

  lemma InTailLoose(d: Dialect, field: Path, holes: seq<Option<nat>>)
    requires forall i :: 0 <= i < |holes| ==> ValidToken(d, Hole(holes[i]))
    ensures Loose(d, ClauseTail(d, In(field, holes)))
  {
    HolesPrintable(d, holes);
    FixedInside(d);
    hide Printable, Loose, Separator, PrintSep;
    var header := [Space, Word("IN"), Space, Open];
    var body := PrintSep(holes, HoleTokens, COMMA);
    PrintableConcat(d, body, [Close]);
    SepThenAny(d, header, body + [Close]);
    assert ClauseTail(d, In(field, holes)) == header + (body + [Close]);
  }

  lemma ClauseTailLoose(d: Dialect, c: Clause)
    requires WellClause(c) && HolesFit(d, c)
    ensures Loose(d, ClauseTail(d, c))
  {
    Keywords();
    hide IsKeyword, Loose, Printable;
    match c
    case Compare(_, symbol, hole) => SpacedPair(d, Op(symbol), Hole(hole));
    case Like(_, hole) => SpacedPair(d, Word(LikeWord(d)), Hole(hole));
    case In(field, holes) => InTailLoose(d, field, holes);
    case IsNull(_) => SpacedPair(d, Word("IS"), Word("NULL"));
    case IsNotNull(_) =>
      SpacedPair(d, Word("IS"), Word("NOT"));
      Spaced(d, Word("NULL"));
      LooseConcat(d, [Space, Word("IS"), Space, Word("NOT")], [Space, Word("NULL")]);
      assert [Space, Word("IS"), Space, Word("NOT")] + [Space, Word("NULL")] == ClauseTail(d, c);
  }

  lemma ClausePrintable(d: Dialect, c: Clause)
    requires WellClause(c) && WellPath(c.field) && HolesFit(d, c)
    ensures Printable(d, ClauseTokens(d, c))
  {
    PathLoose(d, c.field);
    ClauseTailLoose(d, c);
    hide PathTokens, ClauseTail, Printable, Loose;
    LooseConcat(d, PathTokens(c.field), ClauseTail(d, c));
  }

  lemma OrderPrintable(d: Dialect, o: Order)
    requires WellPath(o.field)
    ensures Printable(d, OrderTokens(o))
  {
    PathLoose(d, o.field);
    assert Loose(d, [Space, Word(Direction(o.descending))]);
    hide PathTokens, Printable, Loose;
    LooseConcat(d, PathTokens(o.field), [Space, Word(Direction(o.descending))]);
  }

  /** A separator, then a path. */
  lemma SpacedPathLoose(d: Dialect, header: seq<Token>, p: Path)
    requires WellPath(p) && Separator(d, header)
    ensures Loose(d, header + PathTokens(p))
  {
    PathLoose(d, p);
    hide PathTokens, Printable, Separator;
    SepThenAny(d, header, PathTokens(p));
  }

  lemma JoinHeader(d: Dialect, k: JoinKind)
    ensures Separator(d, [Space, Word(KindWord(k)), Space, Word("JOIN"), Space])
  {
    Keywords();
    assert IsKeyword(KindWord(k));
    hide IsKeyword, Separator, Loose;
    SpacedPair(d, Word(KindWord(k)), Word("JOIN"));
  }

  lemma JoinLoose(d: Dialect, j: Join)
    requires WellPath(j.target) && WellPath(j.left) && WellPath(j.right)
    ensures Loose(d, JoinTokens(j))
  {
    JoinHeader(d, j.kind);
    FixedInside(d);
    hide PathTokens, WellPath, Loose, Printable, Separator;
    var h1 := [Space, Word(KindWord(j.kind)), Space, Word("JOIN"), Space];
    var h2, h3 := [Space, Word("ON"), Space], [Space, Op("="), Space];
    SpacedPathLoose(d, h1, j.target);
    SpacedPathLoose(d, h2, j.left);
    SpacedPathLoose(d, h3, j.right);
    var a, b, c := h1 + PathTokens(j.target), h2 + PathTokens(j.left), h3 + PathTokens(j.right);
    LooseConcat(d, a, b);
    LooseConcat(d, a + b, c);
    assert JoinTokens(j) == (a + b) + c;
  }

  lemma {:induction false} JoinsLoose(d: Dialect, joins: seq<Join>)
    requires forall i :: 0 <= i < |joins| ==>
      WellPath(joins[i].target) && WellPath(joins[i].left) && WellPath(joins[i].right)
    ensures Loose(d, JoinsTokens(joins))
  {
    if joins != [] {
      hide WellPath, JoinTokens, Loose, Printable;
      JoinLoose(d, joins[0]);
      JoinsLoose(d, joins[1..]);
      LooseConcat(d, JoinTokens(joins[0]), JoinsTokens(joins[1..]));
    }
  }

  lemma FiltersLoose(d: Dialect, cs: seq<Clause>)
    requires forall i :: 0 <= i < |cs| ==> WellClause(cs[i]) && WellPath(cs[i].field) && HolesFit(d, cs[i])
    ensures Loose(d, PrintSection(WHERE, cs, (c: Clause) => ClauseTokens(d, c), AND))
  {
    hide Printable, Loose, Separator, PrintSection, WellClause, WellPath, HolesFit, ClauseTokens;
    Fixed(d);
    var emit := (c: Clause) => ClauseTokens(d, c);
    forall i | 0 <= i < |cs|
      ensures Printable(d, emit(cs[i]))
    {
      ClausePrintable(d, cs[i]);
    }
    SectionLoose(d, WHERE, cs, emit, AND);
  }

  lemma OrdersLoose(d: Dialect, os: seq<Order>)
    requires forall i :: 0 <= i < |os| ==> WellPath(os[i].field)
    ensures Loose(d, PrintSection(ORDER_BY, os, OrderTokens, COMMA))
  {
    hide Printable, Loose, Separator, PrintSection, WellPath, OrderTokens;
    Fixed(d);
    forall i | 0 <= i < |os|
      ensures Printable(d, OrderTokens(os[i]))
    {
      OrderPrintable(d, os[i]);
    }
    SectionLoose(d, ORDER_BY, os, OrderTokens, COMMA);
  }

  lemma PathsPrintable(d: Dialect, ps: seq<Path>)
    requires forall i :: 0 <= i < |ps| ==> WellPath(ps[i])
    ensures Printable(d, PrintSep(ps, PathTokens, COMMA))
    ensures Loose(d, PrintSection(GROUP_BY, ps, PathTokens, COMMA))
  {
    hide Printable, Loose, Separator, PrintSection, WellPath, PathTokens, PrintSep;
    Fixed(d);
    forall i | 0 <= i < |ps|
      ensures Printable(d, PathTokens(ps[i]))
    {
      PathLoose(d, ps[i]);
      LooseIsPrintable(d, PathTokens(ps[i]));
    }
    SepPrintable(d, ps, PathTokens, COMMA);
    SectionLoose(d, GROUP_BY, ps, PathTokens, COMMA);
  }

  lemma LimitLoose(d: Dialect, limit: Option<nat>)
    ensures Loose(d, LimitTokens(d, limit))
  {
  }

  lemma RestLoose(d: Dialect, q: Select)
    requires WellFormed(d, q)
    ensures Loose(d, RestTokens(d, q))
  {
    hide PrintSection, JoinsTokens, LimitTokens, Loose, WellPath, WellClause, WellJoin, HolesFit;
    var limit := LimitTokens(d, q.limit);
    var order := PrintSection(ORDER_BY, q.orderBy, OrderTokens, COMMA);
    var group := PrintSection(GROUP_BY, q.groupBy, PathTokens, COMMA);
    var filters := PrintSection(WHERE, q.filters, (c: Clause) => ClauseTokens(d, c), AND);
    LimitLoose(d, q.limit);
    OrdersLoose(d, q.orderBy);
    PathsPrintable(d, q.groupBy);
    FiltersLoose(d, q.filters);
    JoinsLoose(d, q.joins);
    LooseConcat(d, order, limit);
    LooseConcat(d, group, order + limit);
    LooseConcat(d, filters, group + (order + limit));
    LooseConcat(d, JoinsTokens(q.joins), filters + (group + (order + limit)));
  }

  lemma BodyPrintable(d: Dialect, q: Select)
    requires WellFormed(d, q)
    ensures Printable(d, BodyTokens(d, q))
  {
    hide PrintSep, PathTokens, RestTokens, Loose, Printable, Separator, WellPath, WellClause, WellJoin, HolesFit;
    RestLoose(d, q);
    PathsPrintable(d, q.columns);
    FixedInside(d);
    var columns := PrintSep(q.columns, PathTokens, COMMA);
    var from := [Space, Word("FROM"), Space] + PathTokens(q.source);
    SpacedPathLoose(d, [Space, Word("FROM"), Space], q.source);
    LooseConcat(d, from, RestTokens(d, q));
    PrintableConcat(d, columns, from + RestTokens(d, q));
    assert BodyTokens(d, q) == columns + (from + RestTokens(d, q));
  }

  lemma StartPrintable(d: Dialect, limit: Option<nat>)
    ensures var start := [Word("SELECT"), Space] + TopTokens(d, limit);
      Printable(d, start) && start != [] && !Sticky(start[|start| - 1])
  {
  }

  /** No two tokens of a statement can run into one another. */
  lemma SelectPrintable(d: Dialect, q: Select)
    requires WellFormed(d, q)
    ensures Printable(d, SelectTokens(d, q))
  {
    hide Printable, TopTokens, BodyTokens, SelectTokens, WellFormed;
    Regroup(d, q);
    BodyPrintable(d, q);
    StartPrintable(d, q.limit);
    var start := [Word("SELECT"), Space] + TopTokens(d, q.limit);
    EndThenAny(d, start, BodyTokens(d, q));
    assert [Word("SELECT"), Space] + (TopTokens(d, q.limit) + BodyTokens(d, q)) == start + BodyTokens(d, q);
  }

  /** A reader of the text, whatever produced it: the tree it denotes, if any. */
  function ReadBack(d: Dialect, text: string): Option<Select>
  {
    match Lex(d, text)
    case None => None
    case Some(ts) => ParseSelect(d, ts)
  }

  /** The text of a well-formed tree denotes that tree and no other. */
  lemma ReadBackInvertsText(d: Dialect, q: Select)
    requires WellFormed(d, q)
    ensures ReadBack(d, Text(d, SelectTokens(d, q))) == Some(q)
  {
    SelectPrintable(d, q);
    LexInvertsText(d, SelectTokens(d, q));
    SelectInverts(d, q);
  }
}
