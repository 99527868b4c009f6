/** join.cpp: the nested-loops join over scans, each taken as the sequence of records it delivers. */
module Join {
  import opened Statuses
  import opened Bytes
  import opened Records
  import opened Compare
  import opened JoinSpec

  /** The outcome of a catalog look-up. */
  datatype Lookup = Found(desc: AttrDesc) | Failed(status: Status)

  type Catalog = (string, string) -> Lookup

  /** attrInfo of catalog.h, without the value. */
  datatype AttrInfo = AttrInfo(relName: string, attrName: string, dtype: Datatype, length: int)

  /** The longest record that fits on a page of a heap file. */
  const MAXRECORD: int := 1000

  // ---------- one output record ----------

  /** Every record of a relation named in the projection has the projected attribute. */
  ghost predicate ProjectionCovered(ds: seq<AttrDesc>, rel1: string, outer: seq<Rec>, rel2: string, inner: seq<Rec>) {
    forall o, i :: o in outer && i in inner ==> Projectable(ds, Bindings(rel1, o, rel2, i))
  }

  lemma {:induction false} OffsetsGrow(ds: seq<AttrDesc>, k: nat, n: nat)
    requires k <= n <= |ds| && forall j :: 0 <= j < |ds| ==> 0 <= ds[j].attr.length
    ensures 0 <= OutputOffset(ds, k) <= OutputOffset(ds, n)
    decreases n
  {
    if k < n { OffsetsGrow(ds, k, n - 1); }
    else if 0 < k { OffsetsGrow(ds, k - 1, n - 1); }
  }

  /** The copy loop: each projected attribute from the record of its relation to the next free bytes. */
  method CopyFields(ds: seq<AttrDesc>, rel1: string, outerRec: Rec, ghost rel2: string, innerRec: Rec,
      outputData: array<Byte>)
    requires Projectable(ds, Bindings(rel1, outerRec, rel2, innerRec)) && outputData.Length == OutputOffset(ds, |ds|)
    modifies outputData
    ensures outputData[..] == Projection(ds, |ds|, Bindings(rel1, outerRec, rel2, innerRec))
  {
    ghost var env := Bindings(rel1, outerRec, rel2, innerRec);
    var outputOffset := 0;
    for i := 0 to |ds|
      invariant outputOffset == OutputOffset(ds, i) && 0 <= outputOffset <= outputData.Length
      invariant outputData[..outputOffset] == Projection(ds, i, env)
    {
      OffsetsGrow(ds, i + 1, |ds|);
      var rec := if ds[i].relName == rel1 then outerRec else innerRec;
      CopyTo(outputData, outputOffset, Field(ds[i].attr, rec));
      outputOffset := outputOffset + ds[i].attr.length;
    }
  }

  // ---------- the loops ----------

  /** A join after the look-ups: projection, condition and the records of both scans. */
  datatype Query = Query(proj: seq<AttrDesc>, d1: AttrDesc, op: Operator, d2: AttrDesc, outer: seq<Rec>,
    inner: seq<Rec>)

  ghost predicate Ready(q: Query) {
    && Joinable(q.d1.attr, q.d2.attr)
    && (forall r :: r in q.outer ==> Has(q.d1.attr, r))
    && ProjectionCovered(q.proj, q.d1.relName, q.outer, q.d2.relName, q.inner)
    && (forall k :: 0 <= k < |q.proj| ==> 0 <= q.proj[k].attr.length)
  }

  ghost predicate InBothScans(q: Query, pairs: seq<(nat, nat)>) {
    forall k :: 0 <= k < |pairs| ==> pairs[k].0 < |q.outer| && pairs[k].1 < |q.inner|
  }

  function Made(q: Query, i: nat, j: nat): Rec
    requires Ready(q) && i < |q.outer| && j < |q.inner|
  {
    Projection(q.proj, |q.proj|, Bindings(q.d1.relName, q.outer[i], q.d2.relName, q.inner[j]))
  }

  /** The records that the projection makes of a list of pairs. */
  ghost function MadeAll(q: Query, pairs: seq<(nat, nat)>): (r: seq<Rec>)
    requires Ready(q) && InBothScans(q, pairs)
    ensures |r| == |pairs| && forall k :: 0 <= k < |pairs| ==> r[k] == Made(q, pairs[k].0, pairs[k].1)
  {
    seq(|pairs|, k requires 0 <= k < |pairs| => Made(q, pairs[k].0, pairs[k].1))
  }

  ghost function Visits(q: Query): Relation
    requires Ready(q)
  {
    Visited(q.d1.attr, q.op, q.d2.attr, q.outer, q.inner)
  }

  ghost function Pairs(q: Query): Relation
    requires Ready(q)
  {
    Joined(q.d1.attr, q.op, q.d2.attr, q.outer, q.inner)
  }

  lemma PairsInRange(q: Query, p: Relation, i: nat, j: nat)
    requires i <= |q.outer| && j <= |q.inner|
    ensures InBothScans(q, RowsTo(p, i, |q.inner|))
    ensures i < |q.outer| ==> InBothScans(q, RowsTo(p, i, |q.inner|) + RowTo(p, i, j))
  {
    var s, t := RowsTo(p, i, |q.inner|), RowTo(p, i, j);
    RowsExact(p, i, |q.inner|);
    RowExact(p, i, j);
    assert forall k :: 0 <= k < |s| ==> s[k] in s;
    assert forall k :: 0 <= k < |t| ==> t[k] in t;
  }

  lemma MadeSnoc(q: Query, s: seq<(nat, nat)>, i: nat, j: nat)
    requires Ready(q) && InBothScans(q, s) && i < |q.outer| && j < |q.inner|
    ensures InBothScans(q, s + [(i, j)]) && MadeAll(q, s + [(i, j)]) == MadeAll(q, s) + [Made(q, i, j)]
  {
    hide Made, Ready;
  }

  /** The records made of the visited pairs up to row i, column j. */
  ghost function MadeTo(q: Query, i: nat, j: nat): seq<Rec>
    requires Ready(q) && i < |q.outer| && j <= |q.inner|
  {
    PairsInRange(q, Visits(q), i, j);
    MadeAll(q, RowsTo(Visits(q), i, |q.inner|) + RowTo(Visits(q), i, j))
  }

  lemma MadeStep(q: Query, i: nat, j: nat)
    requires Ready(q) && i < |q.outer| && j < |q.inner|
    ensures MadeTo(q, i, j + 1) == MadeTo(q, i, j) +
      (if MatchRec(InnerFilter(q.d1.attr, q.op, q.d2.attr, q.outer[i]), q.inner[j]) then [Made(q, i, j)] else [])
  {
    hide Made, MatchRec;
    var p := Visits(q);
    var s, t := RowsTo(p, i, |q.inner|), RowTo(p, i, j);
    PairsInRange(q, p, i, j);
    if p(i, j) {
      MadeSnoc(q, s + t, i, j);
      assert s + (t + [(i, j)]) == s + t + [(i, j)];
    } else {
      assert RowTo(p, i, j + 1) == t;
    }
  }

  /** The records of the whole join. */
  ghost function JoinResult(q: Query, p: Relation): (r: seq<Rec>)
    requires Ready(q)
  {
    PairsInRange(q, p, |q.outer|, 0);
    MadeAll(q, RowsTo(p, |q.outer|, |q.inner|))
  }

  lemma RowStart(q: Query, i: nat)
    requires Ready(q) && i < |q.outer|
    ensures InBothScans(q, RowsTo(Visits(q), i, |q.inner|))
    ensures MadeTo(q, i, 0) == MadeAll(q, RowsTo(Visits(q), i, |q.inner|))
    ensures InBothScans(q, RowsTo(Visits(q), i + 1, |q.inner|))
    ensures MadeTo(q, i, |q.inner|) == MadeAll(q, RowsTo(Visits(q), i + 1, |q.inner|))
  {
    hide Ready, Visits;
    PairsInRange(q, Visits(q), i, |q.inner|);
    PairsInRange(q, Visits(q), i + 1, 0);
    var s := RowsTo(Visits(q), i, |q.inner|);
    assert s + RowTo(Visits(q), i, 0) == s;
  }

  /** The nested scans: every match is projected into the output buffer and appended to the result. */
  method NestedLoops(q: Query, result: seq<Rec>) returns (out: seq<Rec>)
    requires Ready(q) && OutputOffset(q.proj, |q.proj|) <= MAXRECORD
    ensures out == result + JoinResult(q, Visits(q))
  {
    hide ProjectionCovered, Visits, MatchRec, InnerFilter, Projectable, Projection, MadeAll, InBothScans;
    OffsetsGrow(q.proj, 0, |q.proj|);
    var outputData := new Byte[OutputOffset(q.proj, |q.proj|)];
    out := result;
    PairsInRange(q, Visits(q), 0, 0);
    assert JoinResultTo(q, 0) == [];
    for i := 0 to |q.outer|
      invariant out == result + JoinResultTo(q, i)
    {
      var outerRec := q.outer[i];
      var filter := InnerFilter(q.d1.attr, q.op, q.d2.attr, outerRec);
      RowStart(q, i);
      for j := 0 to |q.inner|
        invariant out == result + MadeTo(q, i, j)
      {
        MadeStep(q, i, j);
        if MatchRec(filter, q.inner[j]) {
          MadeIs(q, i, j);
          CopyFields(q.proj, q.d1.relName, outerRec, q.d2.relName, q.inner[j], outputData);
          out := out + [outputData[..]];
        }
      }
    }
  }

  /** The records made of the rows before i. */
  ghost function JoinResultTo(q: Query, i: nat): seq<Rec>
    requires Ready(q) && i <= |q.outer|
  {
    PairsInRange(q, Visits(q), i, 0);
    MadeAll(q, RowsTo(Visits(q), i, |q.inner|))
  }

  lemma MadeIs(q: Query, i: nat, j: nat)
    requires Ready(q) && i < |q.outer| && j < |q.inner|
    ensures var env := Bindings(q.d1.relName, q.outer[i], q.d2.relName, q.inner[j]);
            Projectable(q.proj, env) && Made(q, i, j) == Projection(q.proj, |q.proj|, env)
  {
  }

  /** The nested loops compute the theta join, when no comparison of integers overflows. */
  lemma LoopsAreJoin(q: Query)
    requires Ready(q) && AllExact(q.d1.attr, q.op, q.d2.attr, q.outer, q.inner)
    ensures JoinResult(q, Visits(q)) == JoinResult(q, Pairs(q))
  {
    VisitedIsJoined(q.d1.attr, q.op, q.d2.attr, q.outer, q.inner);
  }

  // ---------- QU_NL_Join ----------

  /** The status of the first look-up that fails, OK if none does. */
  function LookupStatus(catalog: Catalog, names: seq<(string, string)>): Status {
    if names == [] then OK
    else match catalog(names[0].0, names[0].1)
      case Found(_) => LookupStatus(catalog, names[1..])
      case Failed(status) => status
  }

  /** A failed look-up does not report OK. */
  ghost predicate Honest(catalog: Catalog) {
    forall r, a :: catalog(r, a) != Failed(OK)
  }

  lemma {:induction false} AllFound(catalog: Catalog, names: seq<(string, string)>)
    requires Honest(catalog)
    ensures LookupStatus(catalog, names) == OK <==> forall k :: 0 <= k < |names| ==>
      catalog(names[k].0, names[k].1).Found?
  {
    if names != [] {
      AllFound(catalog, names[1..]);
      assert forall k :: 1 <= k < |names| ==> names[k] == names[1..][k - 1];
    }
  }

  /** The status passed on is that of the first name that fails. */
  lemma {:induction false} FirstFailure(catalog: Catalog, names: seq<(string, string)>, k: nat)
    requires k < |names| && catalog(names[k].0, names[k].1).Failed?
    requires forall i :: 0 <= i < k ==> catalog(names[i].0, names[i].1).Found?
    ensures LookupStatus(catalog, names) == catalog(names[k].0, names[k].1).status
  {
    if k > 0 { FirstFailure(catalog, names[1..], k - 1); }
  }

  function Name(a: AttrInfo): (string, string) { (a.relName, a.attrName) }

  /** The descriptors of names that are all in the catalog. */
  function Descs(catalog: Catalog, names: seq<(string, string)>): seq<AttrDesc>
    requires forall k :: 0 <= k < |names| ==> catalog(names[k].0, names[k].1).Found?
  {
    seq(|names|, k requires 0 <= k < |names| => catalog(names[k].0, names[k].1).desc)
  }

  /** The catalog describes the stored relations. */
  ghost predicate Describes(catalog: Catalog, rels: map<string, seq<Rec>>) {
    && Honest(catalog)
    && forall r, a :: catalog(r, a).Found? ==>
         && catalog(r, a).desc.relName == r && r in rels && AttrOk(catalog(r, a).desc.attr)
         && forall rec :: rec in rels[r] ==> Has(catalog(r, a).desc.attr, rec)
  }

  /** What the query says of an attribute is what the catalog says. */
  predicate Typed(catalog: Catalog, a: AttrInfo) {
    catalog(a.relName, a.attrName).Found? ==>
      var d := catalog(a.relName, a.attrName).desc.attr; d.dtype == a.dtype && d.length == a.length
  }

  /** The join that a query asks for, once its names are found. */
  ghost function QueryOf(catalog: Catalog, rels: map<string, seq<Rec>>, proj: seq<(string, string)>,
                         attr1: AttrInfo, op: Operator, attr2: AttrInfo): Query
    requires Describes(catalog, rels) && LookupStatus(catalog, proj + [Name(attr1), Name(attr2)]) == OK
  {
    AllFound(catalog, proj + [Name(attr1), Name(attr2)]);
    NamesFound(catalog, proj, Name(attr1), Name(attr2));
    Query(Descs(catalog, proj), catalog(attr1.relName, attr1.attrName).desc, op,
          catalog(attr2.relName, attr2.attrName).desc, rels[attr1.relName], rels[attr2.relName])
  }

  lemma NamesFound(catalog: Catalog, proj: seq<(string, string)>, a: (string, string), b: (string, string))
    requires Honest(catalog) && LookupStatus(catalog, proj + [a, b]) == OK
    ensures forall k :: 0 <= k < |proj| ==> catalog(proj[k].0, proj[k].1).Found?
    ensures catalog(a.0, a.1).Found? && catalog(b.0, b.1).Found?
  {
    var names := proj + [a, b];
    AllFound(catalog, names);
    assert forall k :: 0 <= k < |proj| ==> names[k] == proj[k];
    assert names[|proj|] == a && names[|proj| + 1] == b;
  }

  /** The projection names attributes of the two relations only. */
  predicate ProjectsFrom(proj: seq<(string, string)>, rel1: string, rel2: string) {
    forall k :: 0 <= k < |proj| ==> proj[k].0 == rel1 || proj[k].0 == rel2
  }

  /** A query over described relations runs within the bounds of its records. */
  lemma QueryReady(catalog: Catalog, rels: map<string, seq<Rec>>, proj: seq<(string, string)>,
                   attr1: AttrInfo, op: Operator, attr2: AttrInfo)
    requires Describes(catalog, rels) && LookupStatus(catalog, proj + [Name(attr1), Name(attr2)]) == OK
    requires Typed(catalog, attr1) && Typed(catalog, attr2) && attr1.dtype == attr2.dtype &&
      attr1.length == attr2.length
    requires ProjectsFrom(proj, attr1.relName, attr2.relName)
    ensures Ready(QueryOf(catalog, rels, proj, attr1, op, attr2))
  {
    hide LookupStatus;
    NamesFound(catalog, proj, Name(attr1), Name(attr2));
    var q := QueryOf(catalog, rels, proj, attr1, op, attr2);
    forall o, i | o in q.outer && i in q.inner
      ensures Projectable(q.proj, Bindings(q.d1.relName, o, q.d2.relName, i))
    {
      forall k | 0 <= k < |q.proj|
        ensures var d := q.proj[k]; var env := Bindings(q.d1.relName, o, q.d2.relName, i);
                d.relName in env && Has(d.attr, env[d.relName])
      {
        assert q.proj[k] == catalog(proj[k].0, proj[k].1).desc;
      }
    }
    forall k | 0 <= k < |q.proj|
      ensures 0 <= q.proj[k].attr.length
    {
      assert q.proj[k] == catalog(proj[k].0, proj[k].1).desc;
    }
  }

  /** The look-up loop over the projection list. */
  method LookUpAll(catalog: Catalog, names: seq<(string, string)>) returns (status: Status, ds: seq<AttrDesc>)
    requires Honest(catalog)
    ensures status == LookupStatus(catalog, names)
    ensures status == OK ==>
      && (forall k :: 0 <= k < |names| ==> catalog(names[k].0, names[k].1).Found?)
      && ds == Descs(catalog, names)
  {
    ds := [];
    for i := 0 to |names|
      invariant |ds| == i && LookupStatus(catalog, names) == LookupStatus(catalog, names[i..])
      invariant forall k :: 0 <= k < i ==> catalog(names[k].0, names[k].1) == Found(ds[k])
    {
      match catalog(names[i].0, names[i].1) {
        case Found(d) => ds := ds + [d];
        case Failed(st) => return st, [];
      }
      assert names[i..][1..] == names[i + 1..];
    }
    status := OK;
  }

  /**
   QU_NL_Join: attributes of different types are refused, the first name that
   the catalog does not have ends the join, and otherwise the theta join is
   appended to the result relation.
   */
  method NLJoin(catalog: Catalog, rels: map<string, seq<Rec>>, result: seq<Rec>, proj: seq<(string, string)>,
                attr1: AttrInfo, op: Operator, attr2: AttrInfo) returns (status: Status, out: seq<Rec>)
    requires Describes(catalog, rels) && Typed(catalog, attr1) && Typed(catalog, attr2)
    requires ProjectsFrom(proj, attr1.relName, attr2.relName)
    requires LookupStatus(catalog, proj + [Name(attr1), Name(attr2)]) == OK ==>
      var q := QueryOf(catalog, rels, proj, attr1, op, attr2); OutputOffset(q.proj, |q.proj|) <= MAXRECORD
    ensures status == (if attr1.dtype != attr2.dtype || attr1.length != attr2.length then ATTRTYPEMISMATCH
                       else LookupStatus(catalog, proj + [Name(attr1), Name(attr2)]))
    ensures status != OK ==> out == result
    ensures status == OK ==>
      var q := QueryOf(catalog, rels, proj, attr1, op, attr2);
      Ready(q) && out == result + JoinResult(q, Visits(q))
      && (AllExact(q.d1.attr, q.op, q.d2.attr, q.outer, q.inner) ==> out == result + JoinResult(q, Pairs(q)))
  {
    out := result;
    if attr1.dtype != attr2.dtype || attr1.length != attr2.length { return ATTRTYPEMISMATCH, out; }
    var names := proj + [Name(attr1), Name(attr2)];
    var ds;
    status, ds := LookUpAll(catalog, names);
    if status != OK { return; }
    NamesFound(catalog, proj, Name(attr1), Name(attr2));
    QueryReady(catalog, rels, proj, attr1, op, attr2);
    var q := Query(ds[..|proj|], ds[|proj|], op, ds[|proj| + 1], rels[attr1.relName], rels[attr2.relName]);
    assert q == QueryOf(catalog, rels, proj, attr1, op, attr2);
    out := NestedLoops(q, result);
    if AllExact(q.d1.attr, q.op, q.d2.attr, q.outer, q.inner) { LoopsAreJoin(q); }
  }
}
