/** The product drill-down: the master record of the selected product, its
    seven approval flags, and two detail views resolved by left joins
    (formulated drugs with their parent drugs, formulations with their
    excipients), each row rendered against a fixed, ordered label list that
    leaves out missing values. */
module DrillDown {
  import opened Seqs
  import opened Table

  const ProductId: Column := "product_id"
  const ParentDrugId: Column := "parent_drug_id"
  const ExcipientId: Column := "excipient_id"

  /** The six tables the application loads; only four take part in joins. */
  datatype Database = Database(
    formulatedDrugs: seq<Row>,
    drugProducts: seq<Row>,
    excipients: seq<Row>,
    formulations: seq<Row>,
    parentDrugs: seq<Row>)

  /** The row carries the selected product id (pandas `==`, so a missing id
      never matches). */
  predicate HasId(row: Row, id: Value) {
    Equal(Cell(row, ProductId), id)
  }

  // ------------------------------------------------------------- left join

  /** A left row combined with a right partner. Where both have a column
      the left row's cell is kept. */
  function Merge(l: Row, m: Row): (r: Row)
    ensures Extends(r, l)
    ensures forall c :: c in m && c !in l ==> c in r && r[c] == m[c]
    ensures r.Keys == l.Keys + m.Keys
  {
    m + l
  }

  /** The key cells agree. As in a pandas merge, a missing key matches a
      missing key. */
  predicate SameKey(l: Row, m: Row, key: Column) {
    Cell(m, key) == Cell(l, key)
  }

  /** `l` merged with each right row sharing its key, in the right table's order. */
  function Partners(l: Row, right: seq<Row>, key: Column): (out: seq<Row>)
    ensures forall m :: m in right && SameKey(l, m, key) ==> Merge(l, m) in out
    ensures forall o :: o in out ==> exists m :: m in right && SameKey(l, m, key) && o == Merge(l, m)
  {
    if right == [] then []
    else
      var rest := Partners(l, right[1..], key);
      assert forall m :: m in right ==> m == right[0] || m in right[1..];
      (if SameKey(l, right[0], key) then [Merge(l, right[0])] else []) + rest
  }

  /** `o` is an output row of the left join for the left row `l`: the merge
      of `l` with a right row of the same key, or `l` itself when no right
      row has its key. */
  ghost predicate JoinedFrom(o: Row, l: Row, right: seq<Row>, key: Column) {
    || (exists m :: m in right && SameKey(l, m, key) && o == Merge(l, m))
    || (o == l && forall m :: m in right ==> !SameKey(l, m, key))
  }

  /** The output of a left join for one left row: its merges with every
      partner, or the left row alone when it has none. */
  function JoinRow(l: Row, right: seq<Row>, key: Column): (out: seq<Row>)
    ensures |out| >= 1
    ensures (forall m :: m in right ==> !SameKey(l, m, key)) ==> out == [l]
    ensures forall m :: m in right && SameKey(l, m, key) ==> Merge(l, m) in out
    ensures forall o :: o in out ==> JoinedFrom(o, l, right, key)
  {
    var ms := Partners(l, right, key);
    if ms == [] then [l]
    else
      assert ms[0] in ms;
      ms
  }

  /** Every output row of a left row keeps that row's cells. */
  lemma JoinRowExtends(l: Row, right: seq<Row>, key: Column, o: Row)
    requires o in JoinRow(l, right, key)
    ensures Extends(o, l)
  {
    if Partners(l, right, key) != [] {
      var m :| m in right && SameKey(l, m, key) && o == Merge(l, m);
    }
  }

  /** `left.merge(right, on=key, how="left")`. */
  function LeftJoin(left: seq<Row>, right: seq<Row>, key: Column): (out: seq<Row>)
    ensures |out| >= |left|
    ensures forall o :: o in out ==> exists l :: l in left && JoinedFrom(o, l, right, key)
  {
    if left == [] then []
    else
      var rest := LeftJoin(left[1..], right, key);
      assert forall o :: o in rest ==> exists l :: l in left && JoinedFrom(o, l, right, key) by {
        forall o | o in rest
          ensures exists l :: l in left && JoinedFrom(o, l, right, key)
        {
          var l :| l in left[1..] && JoinedFrom(o, l, right, key);
          assert l in left;
        }
      }
      JoinRow(left[0], right, key) + rest
  }

  /** The partners of `l` are exactly its merges with the same-key right
      rows, one per such row and in the right table's order. */
  lemma {:induction false} PartnersInOrder(l: Row, right: seq<Row>, key: Column)
    ensures Partners(l, right, key)
         == Map((m: Row) => Merge(l, m), Filter((m: Row) => SameKey(l, m, key), right))
  {
    if right != [] {
      PartnersInOrder(l, right[1..], key);
      var f := (m: Row) => Merge(l, m);
      var p := (m: Row) => SameKey(l, m, key);
      var rest := Filter(p, right[1..]);
      if p(right[0]) {
        assert Filter(p, right) == [right[0]] + rest;
        assert Map(f, [right[0]] + rest) == [f(right[0])] + Map(f, rest);
      } else {
        assert Filter(p, right) == rest;
      }
    }
  }

  /** The join of a single left row is that row's output. */
  lemma LeftJoinOne(l: Row, right: seq<Row>, key: Column)
    ensures LeftJoin([l], right, key) == JoinRow(l, right, key)
  {
    assert [l][1..] == [];
  }

  /** A left join works row by row: joining two stacked tables stacks
      their joins, so each left row contributes its output once, in left
      order. */
  lemma {:induction false} LeftJoinAppend(a: seq<Row>, b: seq<Row>, right: seq<Row>, key: Column)
    ensures LeftJoin(a + b, right, key) == LeftJoin(a, right, key) + LeftJoin(b, right, key)
  {
    if a == [] {
      assert a + b == b;
    } else {
      assert (a + b)[0] == a[0];
      assert (a + b)[1..] == a[1..] + b;
      LeftJoinAppend(a[1..], b, right, key);
    }
  }

  /** Every output row a left row would produce on its own is in the join. */
  lemma {:induction false} LeftJoinComplete(left: seq<Row>, right: seq<Row>, key: Column, l: Row, o: Row)
    requires l in left && o in JoinRow(l, right, key)
    ensures o in LeftJoin(left, right, key)
  {
    if l != left[0] {
      LeftJoinComplete(left[1..], right, key, l, o);
    }
  }

  /** The rows of a left join are exactly the rows its left rows produce,
      each from a same-key partner or alone. */
  lemma LeftJoinSpec(left: seq<Row>, right: seq<Row>, key: Column)
    ensures forall o :: o in LeftJoin(left, right, key) <==> exists l :: l in left && o in JoinRow(l, right, key)
    ensures forall l, m :: l in left && m in right && SameKey(l, m, key) ==> Merge(l, m) in LeftJoin(left, right, key)
    ensures forall l :: l in left && (forall m :: m in right ==> !SameKey(l, m, key)) ==> l in LeftJoin(left, right, key)
  {
    forall o | o in LeftJoin(left, right, key)
      ensures exists l :: l in left && o in JoinRow(l, right, key)
    {
      LeftJoinSource(left, right, key, o);
    }
    forall l, o | l in left && o in JoinRow(l, right, key)
      ensures o in LeftJoin(left, right, key)
    {
      LeftJoinComplete(left, right, key, l, o);
    }
    forall l, m | l in left && m in right && SameKey(l, m, key)
      ensures Merge(l, m) in LeftJoin(left, right, key)
    {
      LeftJoinComplete(left, right, key, l, Merge(l, m));
    }
    forall l | l in left && (forall m :: m in right ==> !SameKey(l, m, key))
      ensures l in LeftJoin(left, right, key)
    {
      assert JoinRow(l, right, key) == [l];
      LeftJoinComplete(left, right, key, l, l);
    }
  }

  /** Every output row comes from the output of one left row. */
  lemma {:induction false} LeftJoinSource(left: seq<Row>, right: seq<Row>, key: Column, o: Row)
    requires o in LeftJoin(left, right, key)
    ensures exists l :: l in left && o in JoinRow(l, right, key)
  {
    if o !in JoinRow(left[0], right, key) {
      LeftJoinSource(left[1..], right, key, o);
      var l :| l in left[1..] && o in JoinRow(l, right, key);
      assert l in left;
    }
  }

  /** No left row is lost: each is extended by some output row. */
  lemma {:induction false} LeftJoinKeepsLeft(left: seq<Row>, right: seq<Row>, key: Column, l: Row)
    requires l in left
    ensures exists o :: o in LeftJoin(left, right, key) && Extends(o, l)
  {
    var head := JoinRow(left[0], right, key);
    if l == left[0] {
      JoinRowExtends(l, right, key, head[0]);
      assert head[0] in LeftJoin(left, right, key);
    } else {
      LeftJoinKeepsLeft(left[1..], right, key, l);
      var o :| o in LeftJoin(left[1..], right, key) && Extends(o, l);
      assert o in LeftJoin(left, right, key);
    }
  }

  /** Every output row extends some left row. */
  lemma {:induction false} LeftJoinExtendsLeft(left: seq<Row>, right: seq<Row>, key: Column, o: Row)
    requires o in LeftJoin(left, right, key)
    ensures exists l :: l in left && Extends(o, l)
  {
    var head := JoinRow(left[0], right, key);
    if o in head {
      JoinRowExtends(left[0], right, key, o);
    } else {
      LeftJoinExtendsLeft(left[1..], right, key, o);
      var l :| l in left[1..] && Extends(o, l);
      assert l in left;
    }
  }

  /** The rows of a left join that carry the selected product id. */
  function SelectJoined(left: seq<Row>, right: seq<Row>, key: Column, id: Value): (r: seq<Row>)
    ensures forall o :: o in r <==> o in LeftJoin(left, right, key) && HasId(o, id)
    ensures forall o :: multiset(r)[o] == if HasId(o, id) then multiset(LeftJoin(left, right, key))[o] else 0
  {
    Filter(o => HasId(o, id), LeftJoin(left, right, key))
  }

  /** Every shown row carries the selected id and is the merge of a left
      row with a same-key partner, or a partnerless left row itself; every
      left row with the id shows up, once per partner or alone. */
  lemma SelectJoinedSpec(left: seq<Row>, right: seq<Row>, key: Column, id: Value)
    ensures forall o :: o in SelectJoined(left, right, key, id) ==> HasId(o, id)
    ensures forall o :: o in SelectJoined(left, right, key, id) ==>
      exists l :: l in left && JoinedFrom(o, l, right, key)
    ensures forall l, m :: l in left && HasId(l, id) && m in right && SameKey(l, m, key) ==>
      Merge(l, m) in SelectJoined(left, right, key, id)
    ensures forall l :: l in left && HasId(l, id) && (forall m :: m in right ==> !SameKey(l, m, key)) ==>
      l in SelectJoined(left, right, key, id)
    ensures forall l :: l in left && HasId(l, id) ==>
      exists o :: o in SelectJoined(left, right, key, id) && Extends(o, l)
    ensures forall o :: o in SelectJoined(left, right, key, id) ==>
      exists l :: l in left && Extends(o, l)
  {
    LeftJoinSpec(left, right, key);
    forall o | o in SelectJoined(left, right, key, id)
      ensures exists l :: l in left && Extends(o, l)
    {
      LeftJoinExtendsLeft(left, right, key, o);
    }
    forall l, m | l in left && HasId(l, id) && m in right && SameKey(l, m, key)
      ensures Merge(l, m) in SelectJoined(left, right, key, id)
    {
      assert ProductId in l;
      assert HasId(Merge(l, m), id);
    }
    forall l | l in left && HasId(l, id)
      ensures exists o :: o in SelectJoined(left, right, key, id) && Extends(o, l)
    {
      LeftJoinKeepsLeft(left, right, key, l);
      var o :| o in LeftJoin(left, right, key) && Extends(o, l);
      assert ProductId in l;
      assert HasId(o, id);
    }
  }

  /** The formulated drugs of the product, with their parent drugs' columns. */
  function DrugEntries(db: Database, id: Value): seq<Row> {
    SelectJoined(db.formulatedDrugs, db.parentDrugs, ParentDrugId, id)
  }

  /** The formulation rows of the product, with their excipients' columns. */
  function ExcipientEntries(db: Database, id: Value): seq<Row> {
    SelectJoined(db.formulations, db.excipients, ExcipientId, id)
  }

  // ------------------------------------------------------------- rendering

  /** One "**label:** value" line of a detail expander. */
  datatype Line = Line(name: string, value: Value)

  /** Attribute labels of a drug row, in display order. */
  const DrugLabels: seq<(Column, string)> := [
    ("drug_substance", "Drug Substance in Product"),
    ("actives_by_dose", "Form of drug that dose refers to"),
    ("fa", "Bioavailability (fa)"),
    ("f", "Fraction Absorbed (f)"),
    ("tmax", "Time to Maximum Plasma Concentration in hours (tmax)"),
    ("vdss", "Volume of Distribution at steady state (L/kg)"),
    ("clearance", "Clearance (mL/min)"),
    ("fraction_unbound", "Fraction Unbound"),
    ("mrt", "Mean Residence Time (hours)"),
    ("terminal_half_life", "Terminal Half-Life (hours)"),
    ("dose_value", "Dose"),
    ("dose_unit", "Dose Unit"),
    ("pss_inchi", "Formulated drug InChI"),
    ("pss_inchikey", "Formulated drug InChI Key"),
    ("pss_smiles", "Formulated drug SMILES"),
    ("p_inchi", "Parent InChI"),
    ("p_inchikey", "Parent InChI Key"),
    ("p_smiles", "Parent SMILES"),
    ("p_chembl_id", "Parent ChEMBL ID"),
    ("notes", "Curation nodes")
  ]

  /** Attribute labels of an excipient row, in display order. */
  const ExcipientLabels: seq<(Column, string)> := [
    ("product_id", "Product ID"),
    ("excipient_id", "Excipient ID"),
    ("excipient_name", "Excipient Name"),
    ("excipient_inchi", "Excipient InChI"),
    ("excipient_inchikey", "Excipient InChI Key"),
    ("excipient_chembl_id", "Excipient ChEMBL ID"),
    ("excipient_pchem_cid", "Excipient PubChem CID")
  ]

  /** Attribute labels of the master record table, in display order. */
  const ProductLabels: seq<(Column, string)> := [
    ("product_name", "Product Name"),
    ("ema_number", "EMA Number"),
    ("authorisation_status", "Authorization Status"),
    ("therapeutic_group", "Therapeutic Group"),
    ("dosage_form", "Dosage Form"),
    ("route", "Route of Administration"),
    ("indication", "Indication"),
    ("authorisation_date", "Authorisation Date"),
    ("authorisation_holder", "Authorisation Holder")
  ]

  /** The seven approval flags, in display order. */
  const FlagLabels: seq<(Column, string)> := [
    ("additional", "Additional Information"),
    ("generic", "Generic"),
    ("orphan", "Orphan Drug"),
    ("exceptional", "Exceptional Authorization"),
    ("accelerated", "Accelerated Approval"),
    ("conditional", "Conditional Approval"),
    ("patient_safety", "Patient Safety")
  ]

  /** One line per label, in label order, missing values included. */
  function AllLines(row: Row, labels: seq<(Column, string)>): (lines: seq<Line>)
    ensures |lines| == |labels|
    ensures forall i :: 0 <= i < |labels| ==> lines[i] == Line(labels[i].1, Cell(row, labels[i].0))
  {
    Map((cl: (Column, string)) => Line(cl.1, Cell(row, cl.0)), labels)
  }

  /** The lines of one detail expander: the labelled attributes in label
      order, with every missing value left out. */
  function Render(row: Row, labels: seq<(Column, string)>): (lines: seq<Line>)
    ensures IsSubseq(lines, AllLines(row, labels))
    ensures forall ln :: ln in lines <==> ln in AllLines(row, labels) && ln.value != Missing
  {
    FilterIsSubseq((ln: Line) => ln.value != Missing, AllLines(row, labels));
    Filter((ln: Line) => ln.value != Missing, AllLines(row, labels))
  }

  /** Label `i` is rendered, with the row's value, exactly when that value
      is present. */
  lemma RenderShowsPresent(row: Row, labels: seq<(Column, string)>, i: nat)
    requires i < |labels|
    ensures Line(labels[i].1, Cell(row, labels[i].0)) in Render(row, labels)
        <==> Cell(row, labels[i].0) != Missing
  {
    assert AllLines(row, labels)[i] == Line(labels[i].1, Cell(row, labels[i].0));
  }

  /** A row whose every labelled value is present renders all labels, in order. */
  lemma RenderComplete(row: Row, labels: seq<(Column, string)>)
    requires forall i :: 0 <= i < |labels| ==> Cell(row, labels[i].0) != Missing
    ensures Render(row, labels) == AllLines(row, labels)
  {
    FilterAll((ln: Line) => ln.value != Missing, AllLines(row, labels));
  }

  /** The approval flags of the master record, as `if value:` reads them. */
  function BooleanRow(product: Row): (flags: seq<(string, bool)>)
    ensures |flags| == 7
    ensures forall i :: 0 <= i < 7 ==> flags[i].0 == FlagLabels[i].1
    ensures forall i :: 0 <= i < 7 ==> (flags[i].1 <==> Truthy(Cell(product, FlagLabels[i].0)))
  {
    Map((cl: (Column, string)) => (cl.1, Truthy(Cell(product, cl.0))), FlagLabels)
  }

  /** A flag left empty in the data (NaN) shows as True, since NaN is truthy. */
  lemma MissingFlagShowsTrue(product: Row, i: nat)
    requires i < 7 && Cell(product, FlagLabels[i].0) == Missing
    ensures BooleanRow(product)[i].1
  {
  }

  /** The first master record carrying the id (`.iloc[0]` of the matches);
      `None` where the script raises because there is none. */
  function MasterRecord(products: seq<Row>, id: Value): (r: Option<Row>)
    ensures r.None? <==> forall p :: p in products ==> !HasId(p, id)
    ensures r.Some? ==> exists i :: (0 <= i < |products| && products[i] == r.value
      && HasId(products[i], id) && forall j :: 0 <= j < i ==> !HasId(products[j], id))
  {
    if products == [] then None
    else if HasId(products[0], id) then Some(products[0])
    else
      var r := MasterRecord(products[1..], id);
      assert forall p :: p in products ==> p == products[0] || p in products[1..];
      if r.Some? then
        var i :| 0 <= i < |products[1..]| && products[1..][i] == r.value
          && HasId(products[1..][i], id) && forall j :: 0 <= j < i ==> !HasId(products[1..][j], id);
        assert products[i + 1] == r.value;
        assert forall j :: 1 <= j < i + 1 ==> products[j] == products[1..][j - 1];
        r
      else r
  }

  /** Everything the drill-down shows for one selected product. */
  datatype Details = Details(
    info: seq<Line>,
    flags: seq<(string, bool)>,
    drugs: seq<seq<Line>>,
    excipients: seq<seq<Line>>)

  /** One rendered expander per row, in row order. */
  function RenderAll(rows: seq<Row>, labels: seq<(Column, string)>): (blocks: seq<seq<Line>>)
    ensures |blocks| == |rows|
    ensures forall i :: 0 <= i < |rows| ==> blocks[i] == Render(rows[i], labels)
  {
    Map(row => Render(row, labels), rows)
  }

  /** The drill-down for the selected id: `None` when the master table has
      no such product. The master record's table shows all nine attributes,
      missing ones included. */
  function ProductDetails(db: Database, id: Value): (d: Option<Details>)
    ensures d.None? <==> forall p :: p in db.drugProducts ==> !HasId(p, id)
    ensures d.Some? ==> |d.value.info| == 9 && |d.value.flags| == 7
    ensures d.Some? ==> d.value.info == AllLines(MasterRecord(db.drugProducts, id).value, ProductLabels)
    ensures d.Some? ==> d.value.flags == BooleanRow(MasterRecord(db.drugProducts, id).value)
    ensures d.Some? ==> (|d.value.drugs| == |DrugEntries(db, id)|
      && forall i :: 0 <= i < |d.value.drugs| ==> d.value.drugs[i] == Render(DrugEntries(db, id)[i], DrugLabels))
    ensures d.Some? ==> (|d.value.excipients| == |ExcipientEntries(db, id)|
      && forall i :: 0 <= i < |d.value.excipients| ==>
           d.value.excipients[i] == Render(ExcipientEntries(db, id)[i], ExcipientLabels))
  {
    var master := MasterRecord(db.drugProducts, id);
    if master.None? then None
    else
      var product := master.value;
      var drugs := RenderAll(DrugEntries(db, id), DrugLabels);
      var excipients := RenderAll(ExcipientEntries(db, id), ExcipientLabels);
      Some(Details(AllLines(product, ProductLabels), BooleanRow(product), drugs, excipients))
  }
}
