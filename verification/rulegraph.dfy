/** The association-rule explorer: rule sides are de-bracketed, the rule
    table is narrowed by the column filter, and the surviving rows become a
    directed multigraph with one edge per row, labelled by the chosen
    metric, with physics enabled only for small graphs. */
module RuleGraph {
  import opened Seqs
  import opened Text
  import opened Table
  import opened ColumnFilter

  // ------------------------------------------------------------ rule table

  /** A row of the association-rule file: one-item sides written as "{X}". */
  datatype RawRule = RawRule(
    lhs: string, rhs: string,
    support: real, confidence: real, coverage: real, lift: real,
    count: int)

  const Antecedent: Column := "antecedent"
  const Consequent: Column := "consequent"

  const Braces: set<char> := {'{', '}'}

  /** `side` is what de-bracketing leaves of `raw`: only braces are cut off
      the outside, then only whitespace. The brace-stripped text has no
      brace at either end and the result no whitespace at either end; the
      result may still start or end with a brace, as "{ {x} }" gives "{x}". */
  ghost predicate Debracketed(raw: string, side: string) {
    exists inner :: Trimmed(raw, inner, Braces) && Trimmed(inner, side, Whitespace)
  }

  /** `str(x).strip("{}").strip()`: drop surrounding braces, then
      surrounding whitespace. */
  function StripBraces(s: string): (r: string)
    ensures Debracketed(s, r)
    ensures Bare(r, Whitespace)
    ensures Contains(s, r)
  {
    var inner := Strip(s, Braces);
    StripSpec(s, Braces);
    StripSpec(inner, Whitespace);
    ContainsTransitive(s, inner, Strip(inner, Whitespace));
    Strip(inner, Whitespace)
  }

  /** De-bracketing has exactly one outcome, the one `StripBraces` computes. */
  lemma DebracketedUnique(raw: string, side: string)
    requires Debracketed(raw, side)
    ensures StripBraces(raw) == side
  {
    var inner :| Trimmed(raw, inner, Braces) && Trimmed(inner, side, Whitespace);
    StripIsTheTrim(raw, inner, Braces);
    StripIsTheTrim(inner, side, Whitespace);
  }

  /** A side written "{X}" becomes "X" whenever X is itself free of
      surrounding braces and whitespace. */
  lemma StripBracesUnwraps(x: string)
    requires Bare(x, Braces + Whitespace)
    ensures StripBraces("{" + x + "}") == x
  {
    if x == [] {
      assert "{" + x + "}" == "{}";
      assert "{}"[1..] == "}";
      assert "}"[1..] == "";
    } else {
      assert "{" + x + "}" == ['{'] + (x + "}");
      TrimStartOne('{', x + "}", Braces);
      TrimEndOne(x, '}', Braces);
      StripBare(x, Whitespace);
    }
  }

  /** Only the outer run of braces is cut: a side whose braces sit behind
      whitespace keeps them, so "{ {x} }" becomes "{x}". */
  lemma {:induction false} StripBracesKeepsInnerBraces(y: string)
    requires y != [] && Bare(y, Whitespace)
    ensures StripBraces("{ " + y + " }") == y
  {
    var t := " " + y + " ";
    assert "{ " + y + " }" == ['{'] + (t + "}");
    TrimStartOne('{', t + "}", Braces);
    TrimEndOne(t, '}', Braces);
    assert t == [' '] + (y + " ");
    TrimStartOne(' ', y + " ", Whitespace);
    TrimEndOne(y, ' ', Whitespace);
    assert Strip("{ " + y + " }", Braces) == t;
  }

  /** `"{ {x} }".strip("{}").strip()` is `"{x}"`. */
  lemma NestedBracesExample()
    ensures StripBraces("{ {x} }") == "{x}"
  {
    assert "{x}"[0] == '{' && "{x}"[2] == '}';
    StripBracesKeepsInnerBraces("{x}");
    assert "{ " + "{x}" + " }" == "{ {x} }";
  }

  /** The columns of the explorer's table. */
  const RuleColumns: set<Column> :=
    {Antecedent, Consequent, "support", "confidence", "coverage", "lift", "count"}

  /** The cell of the explorer's table in column `c` for rule `r`: the sides
      renamed to antecedent and consequent and de-bracketed, the measures
      as they are. */
  function RuleCell(r: RawRule, c: Column): Value {
    if c == Antecedent then Text(StripBraces(r.lhs))
    else if c == Consequent then Text(StripBraces(r.rhs))
    else if c == "support" then Num(r.support)
    else if c == "confidence" then Num(r.confidence)
    else if c == "coverage" then Num(r.coverage)
    else if c == "lift" then Num(r.lift)
    else Num(r.count as real)
  }

  /** The rule as a row of the explorer's table. */
  function PrepareRule(r: RawRule): (row: Row)
    ensures row.Keys == RuleColumns
    ensures Cell(row, Antecedent) == Text(StripBraces(r.lhs))
    ensures Cell(row, Consequent) == Text(StripBraces(r.rhs))
    ensures Cell(row, "count") == Num(r.count as real)
  {
    map c | c in RuleColumns :: RuleCell(r, c)
  }

  /** The support of a rule is carried into its row unchanged. */
  lemma PreparedSupport(r: RawRule)
    ensures Cell(PrepareRule(r), "support") == Num(r.support)
  {
    assert "support" in RuleColumns;
  }

  /** The confidence of a rule is carried into its row unchanged. */
  lemma PreparedConfidence(r: RawRule)
    ensures Cell(PrepareRule(r), "confidence") == Num(r.confidence)
  {
    assert "confidence" in RuleColumns;
    // "confidence" and "consequent" share their first three letters: the
    // fourth tells the solver that RuleCell does not take the consequent branch.
    assert "confidence"[3] != Consequent[3];
    assert RuleCell(r, "confidence") == Num(r.confidence);
    assert PrepareRule(r)["confidence"] == RuleCell(r, "confidence");
  }

  /** The coverage of a rule is carried into its row unchanged. */
  lemma PreparedCoverage(r: RawRule)
    ensures Cell(PrepareRule(r), "coverage") == Num(r.coverage)
  {
    assert "coverage" in RuleColumns;
  }

  /** The lift of a rule is carried into its row unchanged. */
  lemma PreparedLift(r: RawRule)
    ensures Cell(PrepareRule(r), "lift") == Num(r.lift)
  {
    assert "lift" in RuleColumns;
  }

  /** The four quality measures of a rule are carried into its row unchanged. */
  lemma PreparedMeasures(r: RawRule)
    ensures Cell(PrepareRule(r), "support") == Num(r.support)
    ensures Cell(PrepareRule(r), "confidence") == Num(r.confidence)
    ensures Cell(PrepareRule(r), "coverage") == Num(r.coverage)
    ensures Cell(PrepareRule(r), "lift") == Num(r.lift)
  {
    PreparedSupport(r);
    PreparedConfidence(r);
    PreparedCoverage(r);
    PreparedLift(r);
  }

  /** The explorer's table: one row per rule, in file order, each side the
      de-bracketed raw side, the measures unchanged. */
  function PrepareRules(raws: seq<RawRule>): (rows: seq<Row>)
    ensures |rows| == |raws|
    ensures forall i :: 0 <= i < |raws| ==>
      Cell(rows[i], Antecedent).Text? && Bare(Cell(rows[i], Antecedent).s, Whitespace)
      && Contains(raws[i].lhs, Cell(rows[i], Antecedent).s)
    ensures forall i :: 0 <= i < |raws| ==>
      Cell(rows[i], Consequent).Text? && Bare(Cell(rows[i], Consequent).s, Whitespace)
      && Contains(raws[i].rhs, Cell(rows[i], Consequent).s)
    ensures forall i :: 0 <= i < |raws| ==>
      Debracketed(raws[i].lhs, Cell(rows[i], Antecedent).s) && Debracketed(raws[i].rhs, Cell(rows[i], Consequent).s)
    ensures forall i :: 0 <= i < |raws| ==> Cell(rows[i], "count") == Num(raws[i].count as real)
    ensures forall i :: 0 <= i < |raws| ==>
      Cell(rows[i], "support") == Num(raws[i].support) && Cell(rows[i], "confidence") == Num(raws[i].confidence)
      && Cell(rows[i], "coverage") == Num(raws[i].coverage) && Cell(rows[i], "lift") == Num(raws[i].lift)
  {
    forall r: RawRule {
      PreparedMeasures(r);
    }
    Map(PrepareRule, raws)
  }

  /** Column types of the explorer's table, which pick the filter widgets. */
  const RuleSchema: map<Column, ColType> :=
    map c | c in RuleColumns :: if c == Antecedent || c == Consequent then Textual else Numeric

  // ----------------------------------------------------------------- graph

  /** The four quality measures offered as edge labels, in menu order. */
  datatype Metric = Lift | Coverage | Confidence | Support

  function MetricColumn(m: Metric): Column {
    match m
    case Lift => "lift"
    case Coverage => "coverage"
    case Confidence => "confidence"
    case Support => "support"
  }

  /** The attributes every edge carries, whichever one labels it. */
  datatype Metrics = Metrics(lift: Value, coverage: Value, confidence: Value, support: Value)

  function Get(ms: Metrics, m: Metric): Value {
    match m
    case Lift => ms.lift
    case Coverage => ms.coverage
    case Confidence => ms.confidence
    case Support => ms.support
  }

  datatype Edge = Edge(source: Value, target: Value, metrics: Metrics)

  /** A directed multigraph: parallel edges are separate entries. */
  datatype Graph = Graph(nodes: set<Value>, edges: seq<Edge>)

  /** The edge `add_edge` inserts for one table row. */
  function EdgeOf(row: Row): (e: Edge)
    ensures forall m :: Get(e.metrics, m) == Cell(row, MetricColumn(m))
  {
    Edge(Cell(row, Antecedent), Cell(row, Consequent),
      Metrics(Cell(row, "lift"), Cell(row, "coverage"), Cell(row, "confidence"), Cell(row, "support")))
  }

  /** The distinct antecedents and consequents of the rows. */
  function Endpoints(rows: seq<Row>): set<Value> {
    (set row | row in rows :: Cell(row, Antecedent)) + (set row | row in rows :: Cell(row, Consequent))
  }

  /** `add_edge(u, v, **attrs)` on a multigraph: adds the endpoints as
      nodes and always appends a new edge. */
  function AddEdge(g: Graph, e: Edge): Graph {
    Graph(g.nodes + {e.source, e.target}, g.edges + [e])
  }

  /** The graph built by adding one edge per row, in row order. */
  function Build(rows: seq<Row>): (g: Graph)
    ensures |g.edges| == |rows|
    ensures forall i :: 0 <= i < |rows| ==> g.edges[i] == EdgeOf(rows[i])
    ensures g.nodes == Endpoints(rows)
  {
    if rows == [] then Graph({}, [])
    else
      var init := rows[..|rows| - 1];
      var last := rows[|rows| - 1];
      assert rows == init + [last];
      assert Endpoints(rows) == Endpoints(init) + {Cell(last, Antecedent), Cell(last, Consequent)};
      AddEdge(Build(init), EdgeOf(last))
  }

  /** Parallel edges are kept: the multiset of (source, target) pairs is
      the multiset of (antecedent, consequent) pairs of the rows. */
  lemma BuildKeepsParallelEdges(rows: seq<Row>)
    ensures multiset(Map((e: Edge) => (e.source, e.target), Build(rows).edges))
         == multiset(Map((row: Row) => (Cell(row, Antecedent), Cell(row, Consequent)), rows))
  {
    var a := Map((e: Edge) => (e.source, e.target), Build(rows).edges);
    var b := Map((row: Row) => (Cell(row, Antecedent), Cell(row, Consequent)), rows);
    assert a == b;
  }

  /** The text shown on each edge: the chosen metric's value as `str` prints it. */
  function EdgeLabels(g: Graph, m: Metric, fmt: Fmt): (labels: seq<string>)
    ensures |labels| == |g.edges|
    ensures forall i :: 0 <= i < |g.edges| ==> labels[i] == Str(Get(g.edges[i].metrics, m), fmt)
  {
    Map((e: Edge) => Str(Get(e.metrics, m), fmt), g.edges)
  }

  /** Edge `i` is labelled with row `i`'s value of the chosen metric. */
  lemma LabelsFollowRows(rows: seq<Row>, m: Metric, fmt: Fmt)
    ensures |EdgeLabels(Build(rows), m, fmt)| == |rows|
    ensures forall i :: 0 <= i < |rows| ==>
      EdgeLabels(Build(rows), m, fmt)[i] == Str(Cell(rows[i], MetricColumn(m)), fmt)
  {
  }

  /** Physics simulation is on only for graphs of fewer than eight nodes. */
  function PhysicsEnabled(g: Graph): bool {
    |g.nodes| < 8
  }

  /** The physics threshold at its boundary: seven nodes on, eight off. */
  lemma PhysicsBoundary(g: Graph)
    ensures |g.nodes| == 7 ==> PhysicsEnabled(g)
    ensures |g.nodes| == 8 ==> !PhysicsEnabled(g)
  {
  }

  /** What the rules explorer shows. */
  datatype RulesView = RulesView(table: seq<Row>, graph: Graph, labels: seq<string>, physics: bool)

  /** The rules explorer: prepare, filter, build, label, decide physics. */
  function ExploreRules(raws: seq<RawRule>, sels: seq<Selection>, m: Metric, fmt: Fmt): (v: RulesView)
    requires WellTyped(RuleSchema, sels)
    ensures v.table == FilterFrame(PrepareRules(raws), sels, fmt)
    ensures |v.graph.edges| == |v.table| && v.graph.nodes == Endpoints(v.table)
    ensures forall i :: 0 <= i < |v.table| ==> v.graph.edges[i] == EdgeOf(v.table[i])
    ensures |v.labels| == |v.table|
    ensures forall i :: 0 <= i < |v.table| ==> v.labels[i] == Str(Cell(v.table[i], MetricColumn(m)), fmt)
    ensures v.physics <==> |Endpoints(v.table)| < 8
  {
    var table := FilterFrame(PrepareRules(raws), sels, fmt);
    var g := Build(table);
    LabelsFollowRows(table, m, fmt);
    RulesView(table, g, EdgeLabels(g, m, fmt), PhysicsEnabled(g))
  }

  /** Rule sides "{a}" -> "{b}", "{a}" -> "{b}", "{b}" -> "{c}" for three
      distinct item names, whatever the measures. */
  predicate ThreeRules(raws: seq<RawRule>, a: string, b: string, c: string) {
    && |raws| == 3
    && raws[0].lhs == "{" + a + "}" && raws[0].rhs == "{" + b + "}"
    && raws[1].lhs == "{" + a + "}" && raws[1].rhs == "{" + b + "}"
    && raws[2].lhs == "{" + b + "}" && raws[2].rhs == "{" + c + "}"
    && Bare(a, Braces + Whitespace) && Bare(b, Braces + Whitespace) && Bare(c, Braces + Whitespace)
    && a != b && b != c && a != c
  }

  /** A rule written "{x}" -> "{y}" prepares to the sides x and y. */
  lemma PreparedSides(raw: RawRule, x: string, y: string)
    requires raw.lhs == "{" + x + "}" && raw.rhs == "{" + y + "}"
    requires Bare(x, Braces + Whitespace) && Bare(y, Braces + Whitespace)
    ensures Cell(PrepareRule(raw), Antecedent) == Text(x)
    ensures Cell(PrepareRule(raw), Consequent) == Text(y)
  {
    StripBracesUnwraps(x);
    StripBracesUnwraps(y);
  }

  /** The prepared sides of the three example rules. */
  lemma ThreeRuleSides(raws: seq<RawRule>, a: string, b: string, c: string)
    requires ThreeRules(raws, a, b, c)
    ensures |PrepareRules(raws)| == 3
    ensures Cell(PrepareRules(raws)[0], Antecedent) == Text(a) && Cell(PrepareRules(raws)[0], Consequent) == Text(b)
    ensures Cell(PrepareRules(raws)[1], Antecedent) == Text(a) && Cell(PrepareRules(raws)[1], Consequent) == Text(b)
    ensures Cell(PrepareRules(raws)[2], Antecedent) == Text(b) && Cell(PrepareRules(raws)[2], Consequent) == Text(c)
  {
    var rows := PrepareRules(raws);
    assert rows[0] == PrepareRule(raws[0]) && rows[1] == PrepareRule(raws[1]) && rows[2] == PrepareRule(raws[2]);
    PreparedSides(raws[0], a, b);
    PreparedSides(raws[1], a, b);
    PreparedSides(raws[2], b, c);
  }

  /** The antecedents of three rows a->b, a->b, b->c are {a, b}. */
  lemma ThreeRowSources(rows: seq<Row>, a: Value, b: Value)
    requires |rows| == 3
    requires Cell(rows[0], Antecedent) == a && Cell(rows[1], Antecedent) == a && Cell(rows[2], Antecedent) == b
    ensures (set row | row in rows :: Cell(row, Antecedent)) == {a, b}
  {
    assert rows[0] in rows && rows[2] in rows;
    assert forall row :: row in rows ==> row == rows[0] || row == rows[1] || row == rows[2];
  }

  /** The consequents of three rows a->b, a->b, b->c are {b, c}. */
  lemma ThreeRowTargets(rows: seq<Row>, b: Value, c: Value)
    requires |rows| == 3
    requires Cell(rows[0], Consequent) == b && Cell(rows[1], Consequent) == b && Cell(rows[2], Consequent) == c
    ensures (set row | row in rows :: Cell(row, Consequent)) == {b, c}
  {
    assert rows[0] in rows && rows[2] in rows;
    assert forall row :: row in rows ==> row == rows[0] || row == rows[1] || row == rows[2];
  }

  /** Three rows a->b, a->b, b->c make three distinct nodes. */
  lemma ThreeRowGraph(rows: seq<Row>, a: Value, b: Value, c: Value)
    requires |rows| == 3 && a != b && b != c && a != c
    requires Cell(rows[0], Antecedent) == a && Cell(rows[0], Consequent) == b
    requires Cell(rows[1], Antecedent) == a && Cell(rows[1], Consequent) == b
    requires Cell(rows[2], Antecedent) == b && Cell(rows[2], Consequent) == c
    ensures Build(rows).nodes == {a, b, c} && |Build(rows).nodes| == 3
  {
    ThreeRowSources(rows, a, b);
    ThreeRowTargets(rows, b, c);
    assert {a, b} + {b, c} == {a, b, c};
    assert |{a, b}| == 2;
    assert |{a, b, c}| == |{a, b}| + 1;
  }

  /** Three rules a->b, a->b, b->c give nodes {a, b, c}, two parallel a->b
      edges and one b->c edge, with physics on. */
  lemma ThreeRuleExample(raws: seq<RawRule>, a: string, b: string, c: string, m: Metric, fmt: Fmt)
    requires ThreeRules(raws, a, b, c)
    ensures ExploreRules(raws, [], m, fmt).graph.nodes == {Text(a), Text(b), Text(c)}
    ensures |ExploreRules(raws, [], m, fmt).graph.nodes| == 3
    ensures |ExploreRules(raws, [], m, fmt).graph.edges| == 3
    ensures ExploreRules(raws, [], m, fmt).graph.edges[0].source == Text(a)
    ensures ExploreRules(raws, [], m, fmt).graph.edges[0].target == Text(b)
    ensures ExploreRules(raws, [], m, fmt).graph.edges[1].source == Text(a)
    ensures ExploreRules(raws, [], m, fmt).graph.edges[1].target == Text(b)
    ensures ExploreRules(raws, [], m, fmt).graph.edges[2].source == Text(b)
    ensures ExploreRules(raws, [], m, fmt).graph.edges[2].target == Text(c)
    ensures ExploreRules(raws, [], m, fmt).physics
  {
    ThreeRuleSides(raws, a, b, c);
    var rows := PrepareRules(raws);
    assert FilterFrame(rows, [], fmt) == rows;
    ThreeRowGraph(rows, Text(a), Text(b), Text(c));
  }
}
