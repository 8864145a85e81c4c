/**
 * The experiment matrix of
 * crates/amplihack-agent-eval/src/tla_prompt_experiment.rs: enumeration of the
 * cells, their ids, and the per-model averages read back from the ids.
 */
module ExperimentMatrix {
  import opened Decimal
  import V = SampleVariance

  datatype Manifest = Manifest(models: seq<string>, refinements: seq<string>, repetitions: nat)

  datatype Entry = Entry(model: string, refinement: string, repetition: nat)

  function Max1(n: nat): nat {
    if n < 1 then 1 else n
  }

  function First<T>(s: seq<T>): seq<T> {
    if s == [] then [] else s[..1]
  }

  /** What matrix_entries ranges over. */
  function Models(m: Manifest, smoke: bool): seq<string> {
    if smoke then First(m.models) else m.models
  }

  function Refinements(m: Manifest, smoke: bool): seq<string> {
    if smoke then First(m.refinements) else m.refinements
  }

  function Repetitions(m: Manifest, smoke: bool): nat {
    if smoke then 1 else Max1(m.repetitions)
  }

  function TotalCells(m: Manifest, smoke: bool): nat {
    if smoke then 1 else Max1(|m.models|) * Max1(|m.refinements|) * Max1(m.repetitions)
  }

  // ----- the enumeration -----

  /** The cell of model i, refinement j, repetition k, in mixed radix. */
  function CellIndex(i: nat, j: nat, k: nat, r: nat, reps: nat): nat {
    (i * r + j) * reps + k
  }

  /** Every cell index below the length holds its own entry. */
  ghost predicate Enumerates(entries: seq<Entry>, models: seq<string>, refinements: seq<string>, reps: nat) {
    forall i: nat, j: nat, k: nat {:trigger CellIndex(i, j, k, |refinements|, reps)} ::
      i < |models| && j < |refinements| && k < reps && CellIndex(i, j, k, |refinements|, reps) < |entries| ==>
        entries[CellIndex(i, j, k, |refinements|, reps)] == Entry(models[i], refinements[j], k)
  }

  lemma ScaleUp(a: nat, b: nat, c: nat)
    requires a <= b
    ensures a * c <= b * c
  {
  }

  lemma SameQuotient(q: nat, d: nat, p: nat, e: nat, radix: nat)
    requires d < radix && e < radix && q * radix + d == p * radix + e
    ensures q == p && d == e
  {
    if q < p { ScaleUp(q + 1, p, radix); } else if p < q { ScaleUp(p + 1, q, radix); }
  }

  lemma IndexUnique(i: nat, j: nat, k: nat, a: nat, b: nat, c: nat, r: nat, reps: nat)
    requires j < r && b < r && k < reps && c < reps
    requires CellIndex(i, j, k, r, reps) == CellIndex(a, b, c, r, reps)
    ensures i == a && j == b && k == c
  {
    SameQuotient(i * r + j, k, a * r + b, c, reps);
    SameQuotient(i, j, a, b, r);
  }

  lemma NextEntry(entries: seq<Entry>, models: seq<string>, refinements: seq<string>, reps: nat, i: nat, j: nat, k: nat)
    requires Enumerates(entries, models, refinements, reps)
    requires i < |models| && j < |refinements| && k < reps && |entries| == CellIndex(i, j, k, |refinements|, reps)
    ensures Enumerates(entries + [Entry(models[i], refinements[j], k)], models, refinements, reps)
  {
    var r := |refinements|;
    var more := entries + [Entry(models[i], refinements[j], k)];
    forall a: nat, b: nat, c: nat | a < |models| && b < r && c < reps && CellIndex(a, b, c, r, reps) < |more|
      ensures more[CellIndex(a, b, c, r, reps)] == Entry(models[a], refinements[b], c)
    {
      if CellIndex(a, b, c, r, reps) == |entries| { IndexUnique(a, b, c, i, j, k, r, reps); }
    }
  }

  /** The three nested loops: m * r * reps entries, each at its mixed-radix index. */
  method MatrixEntries(m: Manifest, smoke: bool) returns (entries: seq<Entry>)
    ensures Enumerates(entries, Models(m, smoke), Refinements(m, smoke), Repetitions(m, smoke))
    ensures |entries| == |Models(m, smoke)| * |Refinements(m, smoke)| * Repetitions(m, smoke)
    ensures !smoke ==>
      Enumerates(entries, m.models, m.refinements, if m.repetitions == 0 then 1 else m.repetitions)
    ensures smoke ==>
      entries == if m.models == [] || m.refinements == [] then [] else [Entry(m.models[0], m.refinements[0], 0)]
  {
    var models, refinements, reps := Models(m, smoke), Refinements(m, smoke), Repetitions(m, smoke);
    entries := [];
    for i := 0 to |models|
      invariant Enumerates(entries, models, refinements, reps)
      invariant |entries| == CellIndex(i, 0, 0, |refinements|, reps)
    {
      entries := AddModel(entries, models, refinements, reps, i);
      Carry(i, |refinements|);
    }
    if smoke { SmokeEntry(entries, m); }
  }

  lemma SmokeEntry(entries: seq<Entry>, m: Manifest)
    requires Enumerates(entries, Models(m, true), Refinements(m, true), Repetitions(m, true))
    requires |entries| == |Models(m, true)| * |Refinements(m, true)| * Repetitions(m, true)
    ensures entries == if m.models == [] || m.refinements == [] then [] else [Entry(m.models[0], m.refinements[0], 0)]
  {
    if m.models == [] || m.refinements == [] {
      ZeroProduct(|Models(m, true)|, |Refinements(m, true)|, Repetitions(m, true));
    } else {
      OneProduct(|Models(m, true)|, |Refinements(m, true)|, Repetitions(m, true));
      FirstEntry(entries, Models(m, true), Refinements(m, true), Repetitions(m, true));
    }
  }

  lemma OneProduct(a: nat, b: nat, c: nat)
    requires a == 1 && b == 1 && c == 1
    ensures a * b * c == 1
  {
  }

  lemma FirstIndex(r: nat, reps: nat)
    ensures CellIndex(0, 0, 0, r, reps) == 0
  {
  }

  lemma FirstEntry(entries: seq<Entry>, models: seq<string>, refinements: seq<string>, reps: nat)
    requires Enumerates(entries, models, refinements, reps) && entries != []
    requires models != [] && refinements != [] && reps > 0
    ensures entries[0] == Entry(models[0], refinements[0], 0)
  {
    FirstIndex(|refinements|, reps);
    assert entries[CellIndex(0, 0, 0, |refinements|, reps)] == Entry(models[0], refinements[0], 0);
  }

  /** The two inner loops, for one model. */
  method AddModel(entries0: seq<Entry>, models: seq<string>, refinements: seq<string>, reps: nat, i: nat)
    returns (entries: seq<Entry>)
    requires i < |models| && Enumerates(entries0, models, refinements, reps)
    requires |entries0| == CellIndex(i, 0, 0, |refinements|, reps)
    ensures Enumerates(entries, models, refinements, reps)
    ensures |entries| == CellIndex(i, |refinements|, 0, |refinements|, reps)
  {
    entries := entries0;
    for j := 0 to |refinements|
      invariant Enumerates(entries, models, refinements, reps)
      invariant |entries| == CellIndex(i, j, 0, |refinements|, reps)
    {
      for k := 0 to reps
        invariant Enumerates(entries, models, refinements, reps)
        invariant |entries| == CellIndex(i, j, k, |refinements|, reps)
      {
        NextEntry(entries, models, refinements, reps, i, j, k);
        entries := entries + [Entry(models[i], refinements[j], k)];
      }
      Carry(i * |refinements| + j, reps);
    }
  }

  lemma DivideStep(q: nat, d: nat, radix: nat)
    requires d < radix
    ensures (q * radix + d) / radix == q && (q * radix + d) % radix == d
  {
    Division(q * radix + d, radix);
    SameQuotient(q, d, (q * radix + d) / radix, (q * radix + d) % radix, radix);
  }

  lemma Division(n: nat, radix: nat)
    requires radix > 0
    ensures n == (n / radix) * radix + n % radix
  {
  }

  lemma QuotientBelow(n: nat, bound: nat, radix: nat)
    requires radix > 0 && n < bound * radix
    ensures n / radix < bound
  {
    Division(n, radix);
    if n / radix >= bound { ScaleUp(bound, n / radix, radix); }
  }

  lemma Nonzero(a: nat, b: nat, n: nat)
    requires n < a * b
    ensures b > 0
  {
  }

  /** Entry n is model n/(r*reps), refinement (n/reps) mod r, repetition n mod reps. */
  lemma {:induction false} EntryByDivision(
    entries: seq<Entry>, models: seq<string>, refinements: seq<string>, reps: nat, n: nat)
    requires Enumerates(entries, models, refinements, reps)
    requires |entries| == |models| * |refinements| * reps && n < |entries|
    ensures var r := |refinements|;
      && reps > 0 && r > 0 && r * reps > 0 && n / (r * reps) < |models|
      && entries[n] == Entry(models[n / (r * reps)], refinements[(n / reps) % r], n % reps)
  {
    var r := |refinements|;
    var i, j, k := Digits(n, models, refinements, reps);
    DivideStep(i * r + j, k, reps);
    DivideStep(i, j, r);
    Regroup(i, j, r, reps);
    InnerBelow(j, k, r, reps);
    DivideStep(i, j * reps + k, r * reps);
  }

  lemma InnerBelow(j: nat, k: nat, r: nat, reps: nat)
    requires j < r && k < reps
    ensures j * reps + k < r * reps
  {
    ScaleUp(j + 1, r, reps);
    Carry(j, reps);
  }

  lemma Regroup(i: nat, j: nat, r: nat, reps: nat)
    ensures (i * r + j) * reps == i * (r * reps) + j * reps
  {
  }

  lemma Carry(q: nat, radix: nat)
    ensures q * radix + radix == (q + 1) * radix
  {
  }

  /** The advertised total is right exactly when there is a model and a refinement. */
  lemma TotalCellsExactly(m: Manifest, smoke: bool)
    ensures |Models(m, smoke)| * |Refinements(m, smoke)| * Repetitions(m, smoke) == TotalCells(m, smoke)
            <==> m.models != [] && m.refinements != []
  {
    if m.models == [] || m.refinements == [] {
      PositiveProduct(Max1(|m.models|), Max1(|m.refinements|), Max1(m.repetitions));
      assert TotalCells(m, smoke) >= 1;
      ZeroProduct(|Models(m, smoke)|, |Refinements(m, smoke)|, Repetitions(m, smoke));
    }
  }

  lemma PositiveProduct(a: nat, b: nat, c: nat)
    requires a >= 1 && b >= 1 && c >= 1
    ensures a * b * c >= 1
  {
    assert a * b >= 1;
  }

  lemma ZeroProduct(a: nat, b: nat, c: nat)
    requires a == 0 || b == 0
    ensures a * b * c == 0
  {
  }

  /** Distinct models and refinements give distinct cells: the enumeration is a bijection. */
  lemma {:induction false} EntriesDistinct(
    entries: seq<Entry>, models: seq<string>, refinements: seq<string>, reps: nat, n: nat, o: nat)
    requires Enumerates(entries, models, refinements, reps)
    requires |entries| == |models| * |refinements| * reps && n < |entries| && o < |entries|
    requires forall a, b :: 0 <= a < b < |models| ==> models[a] != models[b]
    requires forall a, b :: 0 <= a < b < |refinements| ==> refinements[a] != refinements[b]
    ensures entries[n] == entries[o] ==> n == o
  {
    var i, j, k := Digits(n, models, refinements, reps);
    var i', j', k' := Digits(o, models, refinements, reps);
  }

  lemma Digits(n: nat, models: seq<string>, refinements: seq<string>, reps: nat) returns (i: nat, j: nat, k: nat)
    requires n < |models| * |refinements| * reps
    ensures i < |models| && j < |refinements| && k < reps && n == CellIndex(i, j, k, |refinements|, reps)
  {
    var r := |refinements|;
    Nonzero(|models| * r, reps, n);
    QuotientBelow(n, |models| * r, reps);
    Nonzero(|models|, r, n / reps);
    QuotientBelow(n / reps, |models|, r);
    Division(n, reps);
    Division(n / reps, r);
    i, j, k := (n / reps) / r, (n / reps) % r, n % reps;
  }

  // ----- cell ids -----

  function BuildCellId(model: string, refinement: string, repetition: nat): string {
    model + "__" + refinement + "__" + ToString(repetition)
  }

  function EntryId(e: Entry): string {
    BuildCellId(e.model, e.refinement, e.repetition)
  }

  /** What precedes the first "__", or everything: split("__").next(). */
  function ModelOf(id: string): string {
    if id == [] || "__" <= id then [] else [id[0]] + ModelOf(id[1..])
  }

  /** No "__" inside, and no "_" at the end. */
  predicate Plain(model: string) {
    (forall i :: 0 <= i < |model| - 1 ==> !(model[i] == '_' && model[i + 1] == '_')) &&
    (model != [] ==> model[|model| - 1] != '_')
  }

  lemma {:induction false} ModelOfShort(id: string)
    ensures |ModelOf(id)| <= |id| && ModelOf(id) == id[..|ModelOf(id)|]
    ensures |ModelOf(id)| < |id| ==> "__" <= id[|ModelOf(id)|..]
  {
    if id != [] && !("__" <= id) {
      ModelOfShort(id[1..]);
      assert id[|ModelOf(id)|..] == id[1..][|ModelOf(id[1..])|..];
    }
  }

  /** The model is read back from a cell id exactly when it is plain. */
  lemma {:induction false} ModelReadBack(model: string, rest: string)
    ensures ModelOf(model + "__" + rest) == model <==> Plain(model)
  {
    var id := model + "__" + rest;
    if model == [] {
      assert id[..2] == "__";
    } else {
      assert id[1..] == model[1..] + "__" + rest;
      assert id[0] == model[0] && id[1] == if |model| > 1 then model[1] else '_';
      if "__" <= id {
        assert id[0] == "__"[0] && id[1] == "__"[1];
      } else {
        assert id[..2] == [id[0], id[1]];
        ModelReadBack(model[1..], rest);
        PlainTail(model);
      }
    }
  }

  lemma PlainTail(model: string)
    requires model != []
    ensures Plain(model) <==> Plain(model[1..]) && !(|model| > 1 && model[0] == '_' && model[1] == '_') && model != "_"
  {
    var t := model[1..];
    if Plain(t) && !(|model| > 1 && model[0] == '_' && model[1] == '_') && model != "_" {
      forall i | 0 <= i < |model| - 1 ensures !(model[i] == '_' && model[i + 1] == '_') {
        if i > 0 { assert t[i - 1] == model[i] && t[i] == model[i + 1]; }
      }
      assert t != [] ==> t[|t| - 1] == model[|model| - 1];
    }
    if Plain(model) {
      forall i | 0 <= i < |t| - 1 ensures !(t[i] == '_' && t[i + 1] == '_') {
        assert t[i] == model[i + 1] && t[i + 1] == model[i + 2];
      }
    }
  }

  /** The end of an id: the digits after its last underscore, and what precedes them. */
  lemma SuffixReadBack(a: string, m: nat, b: string, n: nat)
    requires a + "__" + ToString(m) == b + "__" + ToString(n)
    ensures a == b && m == n
  {
    var x, y := ToString(m), ToString(n);
    var id := a + "__" + x;
    assert id[|id| - |x| - 1] == '_' && id[|id| - |y| - 1] == '_' by {
      assert (b + "__" + y)[|id| - |y| - 1] == '_';
    }
    assert forall p :: |id| - |x| <= p < |id| ==> id[p] == x[p - (|id| - |x|)];
    assert forall p :: |id| - |y| <= p < |id| ==> id[p] == (b + "__" + y)[p] == y[p - (|id| - |y|)];
    assert |a| == |b|;
    assert a == id[..|a|] && b == (b + "__" + y)[..|b|];
    assert x == id[|id| - |x|..] && y == (b + "__" + y)[|id| - |y|..];
    ToStringInjective(m, n);
  }

  /** For plain models, cell ids are injective in model, refinement and repetition. */
  lemma {:induction false} CellIdsInjective(e: Entry, f: Entry)
    requires Plain(e.model) && Plain(f.model) && EntryId(e) == EntryId(f)
    ensures e == f
  {
    var rest, rest' := e.refinement + "__" + ToString(e.repetition), f.refinement + "__" + ToString(f.repetition);
    assert EntryId(e) == e.model + "__" + rest && EntryId(f) == f.model + "__" + rest';
    ModelReadBack(e.model, rest);
    ModelReadBack(f.model, rest');
    assert rest == EntryId(e)[|e.model| + 2..] && rest' == EntryId(f)[|f.model| + 2..];
    SuffixReadBack(e.refinement, e.repetition, f.refinement, f.repetition);
  }

  /** What follows the first "__". */
  function AfterModel(id: string): string {
    var n := |ModelOf(id)|;
    if n + 2 <= |id| then id[n + 2..] else []
  }

  lemma {:induction false} AfterModelIs(model: string, rest: string)
    requires Plain(model)
    ensures ModelOf(model + "__" + rest) == model && AfterModel(model + "__" + rest) == rest
  {
    ModelReadBack(model, rest);
  }

  /** The id of a cell with plain names is model, refinement and numeral between separators, in this order. */
  lemma {:induction false} FieldsReadBack(e: Entry)
    requires Plain(e.model) && Plain(e.refinement)
    ensures var rest := AfterModel(EntryId(e));
      ModelOf(EntryId(e)) == e.model && ModelOf(rest) == e.refinement && AfterModel(rest) == ToString(e.repetition)
  {
    var rest := e.refinement + "__" + ToString(e.repetition);
    assert EntryId(e) == e.model + "__" + rest;
    AfterModelIs(e.model, rest);
    AfterModelIs(e.refinement, ToString(e.repetition));
  }

  /** What is read as the model of an id with a separator is plain. */
  lemma ReadModelPlain(id: string)
    requires |ModelOf(id)| < |id|
    ensures Plain(ModelOf(id)) && |ModelOf(id)| + 2 <= |id|
    ensures id == ModelOf(id) + "__" + id[|ModelOf(id)| + 2..]
  {
    var n := |ModelOf(id)|;
    ModelOfShort(id);
    assert id[n..][..2] == "__";
    assert id == id[..n] + "__" + id[n + 2..];
    ModelReadBack(ModelOf(id), id[n + 2..]);
  }

  /** The model is read at the first separator, so nothing of the separator after it is. */
  lemma {:induction false} ModelOfWithin(model: string, rest: string)
    ensures |ModelOf(model + "__" + rest)| <= |model|
  {
    var id := model + "__" + rest;
    if model == [] {
      assert id[..2] == "__";
    } else {
      assert id[1..] == model[1..] + "__" + rest;
      ModelOfWithin(model[1..], rest);
    }
  }

  /** What is read from the id of a cell is a plain model, and not the cell's own unless that is plain. */
  lemma EntryModelRead(e: Entry)
    ensures Plain(ModelOf(EntryId(e))) && |ModelOf(EntryId(e))| <= |e.model|
    ensures ModelOf(EntryId(e)) == e.model <==> Plain(e.model)
  {
    var rest := e.refinement + "__" + ToString(e.repetition);
    assert EntryId(e) == e.model + "__" + rest;
    ModelOfWithin(e.model, rest);
    ReadModelPlain(EntryId(e));
    ModelReadBack(e.model, rest);
  }

  /** A cell of a model that is not plain shares its id with a cell of a shorter, plain one. */
  lemma SharedId(e: Entry) returns (f: Entry)
    requires !Plain(e.model)
    ensures Plain(f.model) && |f.model| < |e.model| && EntryId(f) == EntryId(e)
  {
    var id, last := EntryId(e), "__" + ToString(e.repetition);
    var model := ModelOf(id);
    EntryModelRead(e);
    ShorterRead(e);
    ReadModelPlain(id);
    var n := |id| - |last|;
    assert id == (e.model + "__" + e.refinement) + last;
    assert id[n..] == last;
    f := Entry(model, id[|model| + 2..n], e.repetition);
    assert id == model + "__" + id[|model| + 2..n] + last;
    assert EntryId(f) == model + "__" + f.refinement + last;
  }

  lemma ShorterRead(e: Entry)
    requires !Plain(e.model)
    ensures |ModelOf(EntryId(e))| < |e.model|
  {
    var id := EntryId(e);
    EntryModelRead(e);
    ModelOfShort(id);
    assert id[..|e.model|] == e.model;
  }

  /** No other cell of a plain model has the id of a cell of model m. */
  ghost predicate OwnIds(m: string) {
    forall e: Entry, f: Entry :: e.model == m && Plain(f.model) && EntryId(e) == EntryId(f) ==> e == f
  }

  /** Among plain models ids are injective, and no other model can join them. */
  lemma {:induction false} OwnIdsExactly(m: string)
    ensures OwnIds(m) <==> Plain(m)
  {
    if Plain(m) {
      forall e: Entry, f: Entry | e.model == m && Plain(f.model) && EntryId(e) == EntryId(f) ensures e == f {
        CellIdsInjective(e, f);
      }
    } else {
      var e := Entry(m, "", 0);
      var f := SharedId(e);
      assert e != f;
    }
  }

  // ----- per-model averages -----

  predicate AllScored(order: seq<string>, scores: map<string, real>) {
    forall id :: id in order ==> id in scores
  }

  /** The scores of the ids read as the given model, in the order visited. */
  function Gathered(order: seq<string>, scores: map<string, real>, model: string): seq<real>
    requires AllScored(order, scores)
  {
    if order == [] then [] else
    var last := |order| - 1;
    Gathered(order[..last], scores, model) + if ModelOf(order[last]) == model then [scores[order[last]]] else []
  }

  /** The hash map is visited in the given order; every group gets its mean. */
  method PerModelScores(order: seq<string>, scores: map<string, real>) returns (averages: map<string, real>)
    requires AllScored(order, scores)
    ensures forall m :: m in averages <==> Gathered(order, scores, m) != []
    ensures forall m :: m in averages ==> averages[m] == V.Mean(Gathered(order, scores, m))
  {
    var groups: map<string, seq<real>> := map[];
    for i := 0 to |order|
      invariant forall m :: m in groups <==> Gathered(order[..i], scores, m) != []
      invariant forall m :: m in groups ==> groups[m] == Gathered(order[..i], scores, m)
    {
      assert order[..i + 1][..i] == order[..i] && order[i] in order;
      var model := ModelOf(order[i]);
      var group := if model in groups then groups[model] else [];
      groups := groups[model := group + [scores[order[i]]]];
    }
    assert order[..|order|] == order;
    averages := map m | m in groups :: V.Mean(groups[m]);
  }

  function Ids(entries: seq<Entry>): (ids: seq<string>)
    ensures |ids| == |entries| && forall i :: 0 <= i < |ids| ==> ids[i] == EntryId(entries[i])
  {
    seq(|entries|, i requires 0 <= i < |entries| => EntryId(entries[i]))
  }

  /** The scores of a model's own cells. */
  function OwnScores(entries: seq<Entry>, scores: map<string, real>, model: string): seq<real>
    requires forall i :: 0 <= i < |entries| ==> EntryId(entries[i]) in scores
  {
    if entries == [] then [] else
    var last := |entries| - 1;
    OwnScores(entries[..last], scores, model) +
    if entries[last].model == model then [scores[EntryId(entries[last])]] else []
  }

  /** For cells of plain models, what is averaged for a model is exactly the scores of its cells. */
  lemma {:induction false} PlainOwnCells(entries: seq<Entry>, scores: map<string, real>, model: string)
    requires forall i :: 0 <= i < |entries| ==> Plain(entries[i].model) && EntryId(entries[i]) in scores
    ensures Gathered(Ids(entries), scores, model) == OwnScores(entries, scores, model)
  {
    if entries != [] {
      var last := |entries| - 1;
      PlainOwnCells(entries[..last], scores, model);
      assert Ids(entries)[..last] == Ids(entries[..last]);
      EntryModelRead(entries[last]);
    }
  }

  /** Nothing is gathered for a model that is not plain. */
  lemma {:induction false} NothingGathered(entries: seq<Entry>, scores: map<string, real>, model: string)
    requires !Plain(model) && forall i :: 0 <= i < |entries| ==> EntryId(entries[i]) in scores
    ensures Gathered(Ids(entries), scores, model) == []
  {
    if entries != [] {
      var last := |entries| - 1;
      NothingGathered(entries[..last], scores, model);
      assert Ids(entries)[..last] == Ids(entries[..last]);
      EntryModelRead(entries[last]);
    }
  }

  lemma {:induction false} OwnScoresThere(entries: seq<Entry>, scores: map<string, real>, i: nat)
    requires i < |entries| && forall k :: 0 <= k < |entries| ==> EntryId(entries[k]) in scores
    ensures OwnScores(entries, scores, entries[i].model) != []
  {
    var last := |entries| - 1;
    if i < last { OwnScoresThere(entries[..last], scores, i); }
  }

  /** Every model is averaged over exactly its own cells if and only if every cell's model is plain. */
  lemma {:induction false} AveragesOwnCells(entries: seq<Entry>, scores: map<string, real>)
    requires forall i :: 0 <= i < |entries| ==> EntryId(entries[i]) in scores
    ensures (forall model :: Gathered(Ids(entries), scores, model) == OwnScores(entries, scores, model))
            <==> forall i :: 0 <= i < |entries| ==> Plain(entries[i].model)
  {
    if forall i :: 0 <= i < |entries| ==> Plain(entries[i].model) {
      forall model ensures Gathered(Ids(entries), scores, model) == OwnScores(entries, scores, model) {
        PlainOwnCells(entries, scores, model);
      }
    } else {
      var i :| 0 <= i < |entries| && !Plain(entries[i].model);
      NothingGathered(entries, scores, entries[i].model);
      OwnScoresThere(entries, scores, i);
    }
  }

  lemma {:induction false} GatheredConcat(a: seq<string>, b: seq<string>, scores: map<string, real>, model: string)
    requires AllScored(a, scores) && AllScored(b, scores)
    ensures Gathered(a + b, scores, model) == Gathered(a, scores, model) + Gathered(b, scores, model)
  {
    if b == [] {
      assert a + b == a;
    } else {
      var last := |b| - 1;
      assert (a + b)[..|a + b| - 1] == a + b[..last];
      GatheredConcat(a, b[..last], scores, model);
    }
  }

  lemma ScoredParts(a: seq<string>, b: seq<string>, scores: map<string, real>)
    ensures AllScored(a + b, scores) <==> AllScored(a, scores) && AllScored(b, scores)
  {
    if AllScored(a + b, scores) {
      forall id | id in a || id in b ensures id in scores { assert id in a + b; }
    }
  }

  /** One id can be taken out anywhere. */
  lemma GatheredTakeOut(a: seq<string>, x: string, c: seq<string>, scores: map<string, real>, model: string)
    requires AllScored(a, scores) && AllScored(c, scores) && x in scores
    ensures AllScored(a + [x] + c, scores) && AllScored(a + c, scores)
    ensures multiset(Gathered(a + [x] + c, scores, model))
            == multiset(Gathered(a + c, scores, model)) + multiset(Gathered([x], scores, model))
  {
    ScoredParts(a, [x], scores);
    ScoredParts(a + [x], c, scores);
    ScoredParts(a, c, scores);
    GatheredConcat(a + [x], c, scores, model);
    GatheredConcat(a, [x], scores, model);
    GatheredConcat(a, c, scores, model);
  }

  lemma {:induction false} GatheredRearranged(a: seq<string>, b: seq<string>, scores: map<string, real>, model: string)
    requires multiset(a) == multiset(b) && AllScored(a, scores) && AllScored(b, scores)
    ensures multiset(Gathered(a, scores, model)) == multiset(Gathered(b, scores, model))
    decreases |a|
  {
    if a == [] {
      assert |multiset(b)| == |b|;
    } else {
      var last := |a| - 1;
      var x := a[last];
      var j := MatchLast(a, b);
      var front, left, right := a[..last], b[..j], b[j + 1..];
      assert a == front + [x] + [] && b == left + [x] + right && front + [] == front;
      ScoredParts(front, [x], scores);
      ScoredParts(left + [x], right, scores);
      ScoredParts(left, [x], scores);
      GatheredTakeOut(front, x, [], scores, model);
      GatheredTakeOut(left, x, right, scores, model);
      GatheredRearranged(front, left + right, scores, model);
    }
  }

  lemma MatchLast(a: seq<string>, b: seq<string>) returns (j: nat)
    requires a != [] && multiset(a) == multiset(b)
    ensures j < |b| && b[j] == a[|a| - 1] && multiset(b[..j] + b[j + 1..]) == multiset(a[..|a| - 1])
  {
    var x := a[|a| - 1];
    assert x in multiset(b);
    j :| 0 <= j < |b| && b[j] == x;
    Without(b, j);
    WithoutLast(a);
  }

  lemma WithoutLast(a: seq<string>)
    requires a != []
    ensures multiset(a[..|a| - 1]) == multiset(a) - multiset{a[|a| - 1]}
  {
    assert a == a[..|a| - 1] + [a[|a| - 1]];
  }

  lemma Without(s: seq<string>, j: nat)
    requires j < |s|
    ensures multiset(s[..j] + s[j + 1..]) == multiset(s) - multiset{s[j]}
  {
    assert s == s[..j] + [s[j]] + s[j + 1..];
  }

  /** The order in which the hash map is visited does not change an average. */
  lemma {:induction false} AveragesOrderFree(a: seq<string>, b: seq<string>, scores: map<string, real>, model: string)
    requires multiset(a) == multiset(b) && AllScored(a, scores) && AllScored(b, scores)
    requires Gathered(a, scores, model) != []
    ensures Gathered(b, scores, model) != []
    ensures V.Mean(Gathered(a, scores, model)) == V.Mean(Gathered(b, scores, model))
  {
    GatheredRearranged(a, b, scores, model);
    V.RearrangedSums(Gathered(a, scores, model), Gathered(b, scores, model), V.Itself);
  }
}
