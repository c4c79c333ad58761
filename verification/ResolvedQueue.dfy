/** The planner and the queue check together: the totals agree by construction, and a queue that holds
    every planned cell once, under the prefix of its matrix, always passes. */
module ResolvedQueue {
  import opened Sequences
  import opened Aggregates
  import opened Grouping
  import opened BlockPacking
  import opened RouteBundles
  import opened RoutePacking
  import opened ChunkPlans
  import opened QueuePartition

  function SpecOf(plan: ChunkPlan): ChunkSpec {
    ChunkSpec(|plan.matrices|, plan.executions)
  }

  /** What the queue check is told about the plans. */
  function SpecsOf(plans: seq<ChunkPlan>): (r: seq<ChunkSpec>)
    ensures |r| == |plans|
  {
    seq(|plans|, c requires 0 <= c < |plans| => SpecOf(plans[c]))
  }

  function ExecutionsOf(items: seq<WorkItem>): nat {
    if items == [] then 0 else ExecutionsOf(items[..|items| - 1]) + items[|items| - 1].executions
  }

  // ---------- Totals ----------

  lemma {:induction false} SpecTotal(plans: seq<ChunkPlan>)
    ensures TotalExecutions(SpecsOf(plans)) as real == Weigh(plans, PlanExecutions)
  {
    if plans != [] {
      var n := |plans| - 1;
      SpecTotal(plans[..n]);
      assert SpecsOf(plans)[..n] == SpecsOf(plans[..n]);
    }
  }

  lemma {:induction false} ItemTotal(items: seq<WorkItem>)
    ensures ExecutionsOf(items) as real == Weigh(items, ItemExecutions)
  {
    if items != [] {
      ItemTotal(items[..|items| - 1]);
    }
  }

  /** The plans expect as many executions as the items have: against the plan's own total, the total is
      never wrong. */
  lemma PlansCoverExecutions(items: seq<WorkItem>, authorities: string -> Authority, chunks: seq<Chunk>, full: real, ceiling: real)
    requires forall item :: item in items ==> Split(item, authorities(item.batchAuthority)).Success?
    requires IsGreedy(chunks, AllBundles(items, authorities), full, ceiling)
    ensures TotalExecutions(SpecsOf(PlansOf(chunks))) == ExecutionsOf(items)
  {
    hide Split, IsGreedy, AllBundles, Weigh, TotalExecutions, ExecutionsOf, PlansOf;
    PlansConserve(items, authorities, AllBundles(items, authorities), chunks, full, ceiling);
    SpecTotal(PlansOf(chunks));
    ItemTotal(items);
  }

  // ---------- Names ----------

  /** The names of a matrix's cells: each begins with the prefix of the matrix. */
  function MatrixNames(campaign: string, chunk: nat, matrix: nat, cells: seq<Cell>, tail: Cell -> string): (r: seq<string>)
    ensures |r| == |cells|
  {
    seq(|cells|, i requires 0 <= i < |cells| => MatrixPrefix(campaign, chunk, matrix) + tail(cells[i]))
  }

  function ChunkNames(campaign: string, chunk: nat, matrices: seq<Matrix>, tail: Cell -> string): seq<string> {
    if matrices == [] then []
    else
      var n := |matrices| - 1;
      ChunkNames(campaign, chunk, matrices[..n], tail)
        + MatrixNames(campaign, chunk, n + 1, MatrixCells(matrices[n]), tail)
  }

  /** The names of all planned cells, chunks and matrices being numbered from 1. */
  function PlanNames(campaign: string, plans: seq<ChunkPlan>, tail: Cell -> string): seq<string> {
    if plans == [] then []
    else
      var n := |plans| - 1;
      PlanNames(campaign, plans[..n], tail) + ChunkNames(campaign, n + 1, plans[n].matrices, tail)
  }

  /** Cells of one recipe of one batch are named apart. */
  ghost predicate NamesApart(tail: Cell -> string, cells: seq<Cell>) {
    forall x, y :: x in cells && y in cells && x.batchAuthority == y.batchAuthority && x.recipeId == y.recipeId && tail(x) == tail(y) ==>
      x == y
  }

  /** What the resolver writes behind the prefix: library, route and treatment. `library` gives the
      library that a recipe builds. */
  function CellName(library: string -> string): Cell -> string {
    (cell: Cell) => library(cell.recipeId) + ":" + (cell.routeId + (":" + cell.treatmentId))
  }

  lemma UpToColon(a: string, b: string, a': string, b': string)
    requires ':' !in a && ':' !in a' && a + (":" + b) == a' + (":" + b')
    ensures a == a' && b == b'
  {
    var text := a + (":" + b);
    assert text[|a|] == ':' && text[|a'|] == ':';
    assert forall i :: 0 <= i < |a| ==> text[i] == a[i];
    assert forall i :: 0 <= i < |a'| ==> text[i] == a'[i];
    assert a == text[..|a|] && a' == text[..|a'|];
    assert b == text[|a| + 1..] && b' == text[|a'| + 1..];
  }

  /** It is enough that no route has a colon in its id. */
  lemma CellNamesApart(library: string -> string, cells: seq<Cell>)
    requires forall cell :: cell in cells ==> ':' !in cell.routeId
    ensures NamesApart(CellName(library), cells)
  {
    forall x, y | x in cells && y in cells && x.batchAuthority == y.batchAuthority && x.recipeId == y.recipeId
                  && CellName(library)(x) == CellName(library)(y)
      ensures x == y
    {
      var head := library(x.recipeId) + ":";
      assert CellName(library)(x)[|head|..] == x.routeId + (":" + x.treatmentId);
      assert CellName(library)(y)[|head|..] == y.routeId + (":" + y.treatmentId);
      UpToColon(x.routeId, x.treatmentId, y.routeId, y.treatmentId);
    }
  }

  lemma ApartParts(tail: Cell -> string, a: seq<Cell>, b: seq<Cell>)
    requires NamesApart(tail, a + b)
    ensures NamesApart(tail, a) && NamesApart(tail, b)
  {
  }

  lemma MatrixNamesStart(campaign: string, chunk: nat, matrix: nat, cells: seq<Cell>, tail: Cell -> string, name: string)
    requires name in MatrixNames(campaign, chunk, matrix, cells, tail)
    ensures StartsWith(name, MatrixPrefix(campaign, chunk, matrix))
  {
    hide MatrixPrefix;
  }

  /** A chunk names as many cells as its matrices hold, each under a prefix of one of its matrices. */
  lemma {:induction false} ChunkNamesInChunk(campaign: string, chunk: nat, matrices: seq<Matrix>, tail: Cell -> string)
    ensures |ChunkNames(campaign, chunk, matrices, tail)| == |FlatMap(matrices, MatrixCells)|
    ensures forall name :: name in ChunkNames(campaign, chunk, matrices, tail) ==> InChunk(campaign, chunk, |matrices|, name)
  {
    hide MatrixPrefix, MatrixCells, MatrixNames;
    if matrices != [] {
      var n := |matrices| - 1;
      ChunkNamesInChunk(campaign, chunk, matrices[..n], tail);
      var last := MatrixNames(campaign, chunk, n + 1, MatrixCells(matrices[n]), tail);
      forall name | name in last
        ensures InChunk(campaign, chunk, |matrices|, name)
      {
        MatrixNamesStart(campaign, chunk, n + 1, MatrixCells(matrices[n]), tail, name);
      }
    }
  }

  lemma ApartByPrefix(campaign: string, chunk: nat, matrices: nat, chunk': nat, matrices': nat, name: string)
    requires InChunk(campaign, chunk, matrices, name) && InChunk(campaign, chunk', matrices', name)
    ensures chunk == chunk'
  {
    hide MatrixPrefix;
    var g :| 1 <= g <= matrices && StartsWith(name, MatrixPrefix(campaign, chunk, g));
    var g' :| 1 <= g' <= matrices' && StartsWith(name, MatrixPrefix(campaign, chunk', g'));
    PrefixesAreFree(campaign, chunk, g, chunk', g', name);
  }

  lemma MatrixCellsShareKey(matrix: Matrix, cell: Cell)
    requires cell in MatrixCells(matrix)
    ensures cell.batchAuthority == matrix.key.batchAuthority && cell.recipeId == matrix.key.recipeId
  {
    var i := FlatMapOrigin(Ungroup(matrix), cell, RowCells);
  }

  /** Different cells of a matrix have different names. */
  lemma MatrixNamesDistinct(campaign: string, chunk: nat, n: nat, matrix: Matrix, tail: Cell -> string)
    requires Distinct(MatrixCells(matrix)) && NamesApart(tail, MatrixCells(matrix))
    ensures Distinct(MatrixNames(campaign, chunk, n, MatrixCells(matrix), tail))
  {
    hide MatrixPrefix, MatrixCells;
    var cells, prefix := MatrixCells(matrix), MatrixPrefix(campaign, chunk, n);
    var names := MatrixNames(campaign, chunk, n, cells, tail);
    forall i, j | 0 <= i < j < |names|
      ensures names[i] != names[j]
    {
      assert names[i][|prefix|..] == tail(cells[i]) && names[j][|prefix|..] == tail(cells[j]);
      MatrixCellsShareKey(matrix, cells[i]);
      MatrixCellsShareKey(matrix, cells[j]);
    }
  }

  lemma {:induction false} ChunkNamesDistinct(campaign: string, chunk: nat, matrices: seq<Matrix>, tail: Cell -> string)
    requires Distinct(FlatMap(matrices, MatrixCells)) && NamesApart(tail, FlatMap(matrices, MatrixCells))
    ensures Distinct(ChunkNames(campaign, chunk, matrices, tail))
  {
    hide MatrixPrefix, MatrixCells, MatrixNames, NamesApart;
    if matrices != [] {
      var n := |matrices| - 1;
      var front, last := ChunkNames(campaign, chunk, matrices[..n], tail), MatrixNames(campaign, chunk, n + 1, MatrixCells(matrices[n]), tail);
      DistinctParts(FlatMap(matrices[..n], MatrixCells), MatrixCells(matrices[n]));
      ApartParts(tail, FlatMap(matrices[..n], MatrixCells), MatrixCells(matrices[n]));
      ChunkNamesDistinct(campaign, chunk, matrices[..n], tail);
      ChunkNamesInChunk(campaign, chunk, matrices[..n], tail);
      MatrixNamesDistinct(campaign, chunk, n + 1, matrices[n], tail);
      forall name | name in front && name in last
        ensures false
      {
        MatrixNamesStart(campaign, chunk, n + 1, MatrixCells(matrices[n]), tail, name);
        var g :| 1 <= g <= n && StartsWith(name, MatrixPrefix(campaign, chunk, g));
        PrefixesAreFree(campaign, chunk, g, chunk, n + 1, name);
      }
      DistinctTogether(front, last);
    }
  }

  /** Every planned name is owned, and no two planned cells share one. */
  lemma {:induction false} PlanNamesDistinct(campaign: string, plans: seq<ChunkPlan>, tail: Cell -> string)
    requires Distinct(FlatMap(plans, PlanCells)) && NamesApart(tail, FlatMap(plans, PlanCells))
    ensures Distinct(PlanNames(campaign, plans, tail))
  {
    hide PlanCells, ChunkNames, InChunk, NamesApart;
    if plans != [] {
      var n := |plans| - 1;
      var front, last := PlanNames(campaign, plans[..n], tail), ChunkNames(campaign, n + 1, plans[n].matrices, tail);
      DistinctParts(FlatMap(plans[..n], PlanCells), PlanCells(plans[n]));
      ApartParts(tail, FlatMap(plans[..n], PlanCells), PlanCells(plans[n]));
      PlanNamesDistinct(campaign, plans[..n], tail);
      PlanNamesOwned(campaign, plans[..n], tail);
      CellsOfPlan(plans[n]);
      ChunkNamesDistinct(campaign, n + 1, plans[n].matrices, tail);
      ChunkNamesInChunk(campaign, n + 1, plans[n].matrices, tail);
      forall name | name in front && name in last
        ensures false
      {
        var c :| 0 <= c < n && InChunk(campaign, c + 1, |plans[..n][c].matrices|, name);
        ApartByPrefix(campaign, c + 1, |plans[c].matrices|, n + 1, |plans[n].matrices|, name);
      }
      DistinctTogether(front, last);
    }
  }

  lemma CellsOfPlan(plan: ChunkPlan)
    ensures PlanCells(plan) == FlatMap(plan.matrices, MatrixCells)
  {
  }

  lemma {:induction false} PlanNamesOwned(campaign: string, plans: seq<ChunkPlan>, tail: Cell -> string)
    ensures forall name :: name in PlanNames(campaign, plans, tail) ==>
      exists c :: 0 <= c < |plans| && InChunk(campaign, c + 1, |plans[c].matrices|, name)
  {
    hide ChunkNames, InChunk;
    if plans != [] {
      var n := |plans| - 1;
      PlanNamesOwned(campaign, plans[..n], tail);
      ChunkNamesInChunk(campaign, n + 1, plans[n].matrices, tail);
      forall name | name in PlanNames(campaign, plans, tail)
        ensures exists c :: 0 <= c < |plans| && InChunk(campaign, c + 1, |plans[c].matrices|, name)
      {
        if name in PlanNames(campaign, plans[..n], tail) {
          var c :| 0 <= c < n && InChunk(campaign, c + 1, |plans[..n][c].matrices|, name);
          assert plans[..n][c] == plans[c];
        } else {
          assert InChunk(campaign, n + 1, |plans[n].matrices|, name);
        }
      }
    }
  }

  // ---------- Counting ----------

  function NameIn(campaign: string, chunk: nat, matrices: nat): string -> bool {
    (name: string) => InChunk(campaign, chunk, matrices, name)
  }

  lemma {:induction false} SelectAll<T>(s: seq<T>, wanted: T -> bool)
    requires forall x :: x in s ==> wanted(x)
    ensures Select(s, wanted) == s
  {
    if s != [] {
      SelectAll(s[..|s| - 1], wanted);
    }
  }

  lemma {:induction false} SelectNone<T>(s: seq<T>, wanted: T -> bool)
    requires forall x :: x in s ==> !wanted(x)
    ensures Select(s, wanted) == []
  {
    if s != [] {
      SelectNone(s[..|s| - 1], wanted);
    }
  }

  /** Of the planned names, a chunk owns as many as it plans cells; a number behind the last chunk, none. */
  lemma {:induction false} OwnedCount(campaign: string, plans: seq<ChunkPlan>, tail: Cell -> string, c: nat, matrices: nat)
    requires c < |plans| ==> matrices == |plans[c].matrices|
    ensures |Select(PlanNames(campaign, plans, tail), NameIn(campaign, c + 1, matrices))| == if c < |plans| then |PlanCells(plans[c])| else 0
  {
    hide ChunkNames, InChunk, PlanCells;
    if plans != [] {
      var n := |plans| - 1;
      var last := ChunkNames(campaign, n + 1, plans[n].matrices, tail);
      OwnedCount(campaign, plans[..n], tail, c, matrices);
      SelectConcat(PlanNames(campaign, plans[..n], tail), last, NameIn(campaign, c + 1, matrices));
      ChunkNamesInChunk(campaign, n + 1, plans[n].matrices, tail);
      if c == n {
        SelectAll(last, NameIn(campaign, c + 1, matrices));
        CellsOfPlan(plans[n]);
      } else {
        forall name | name in last
          ensures !NameIn(campaign, c + 1, matrices)(name)
        {
          if InChunk(campaign, c + 1, matrices, name) {
            ApartByPrefix(campaign, c + 1, matrices, n + 1, |plans[n].matrices|, name);
          }
        }
        SelectNone(last, NameIn(campaign, c + 1, matrices));
      }
    }
  }

  function Indicator<T>(wanted: T -> bool): T -> real {
    (x: T) => if wanted(x) then 1.0 else 0.0
  }

  lemma {:induction false} SelectWeighs<T>(s: seq<T>, wanted: T -> bool)
    ensures |Select(s, wanted)| as real == Weigh(s, Indicator(wanted))
  {
    if s != [] {
      SelectWeighs(s[..|s| - 1], wanted);
    }
  }

  function NamesIn(rows: seq<QueueRow>): (r: seq<string>)
    ensures |r| == |rows|
  {
    seq(|rows|, i requires 0 <= i < |rows| => rows[i].baseCell)
  }

  lemma {:induction false} RowsAsNames(rows: seq<QueueRow>, campaign: string, chunk: nat, matrices: nat)
    ensures |SelectRows(rows, campaign, chunk, matrices)| == |Select(NamesIn(rows), NameIn(campaign, chunk, matrices))|
  {
    hide InChunk;
    if rows != [] {
      var n := |rows| - 1;
      RowsAsNames(rows[..n], campaign, chunk, matrices);
      assert NamesIn(rows)[..n] == NamesIn(rows[..n]);
    }
  }

  /** A queue that lists the planned names in any order gives each chunk as many rows as it plans cells. */
  lemma ChunkRowsCounted(campaign: string, plans: seq<ChunkPlan>, tail: Cell -> string, rows: seq<QueueRow>, c: nat)
    requires multiset(NamesIn(rows)) == multiset(PlanNames(campaign, plans, tail)) && c < |plans|
    ensures |ChunkRows(campaign, SpecsOf(plans), rows, c)| == |PlanCells(plans[c])|
  {
    hide SelectRows, Select, Weigh, InChunk, PlanNames, PlanCells;
    var wanted := NameIn(campaign, c + 1, |plans[c].matrices|);
    RowsAsNames(rows, campaign, c + 1, |plans[c].matrices|);
    SelectWeighs(NamesIn(rows), wanted);
    SelectWeighs(PlanNames(campaign, plans, tail), wanted);
    WeighPermute(NamesIn(rows), PlanNames(campaign, plans, tail), Indicator(wanted));
    OwnedCount(campaign, plans, tail, c, |plans[c].matrices|);
  }

  lemma RowsOwned(campaign: string, plans: seq<ChunkPlan>, tail: Cell -> string, rows: seq<QueueRow>)
    requires multiset(NamesIn(rows)) == multiset(PlanNames(campaign, plans, tail))
    ensures forall i :: 0 <= i < |rows| ==> Owned(campaign, SpecsOf(plans), |plans|, rows[i].baseCell)
  {
    hide InChunk, PlanNames;
    PlanNamesOwned(campaign, plans, tail);
    forall i | 0 <= i < |rows|
      ensures Owned(campaign, SpecsOf(plans), |plans|, rows[i].baseCell)
    {
      var name := NamesIn(rows)[i];
      assert name in multiset(PlanNames(campaign, plans, tail));
      assert name in PlanNames(campaign, plans, tail);
      var c :| 0 <= c < |plans| && InChunk(campaign, c + 1, |plans[c].matrices|, name);
      assert Owns(campaign, SpecsOf(plans), c, rows[i].baseCell);
    }
  }

  lemma DistinctRows(rows: seq<QueueRow>, names: seq<string>)
    requires multiset(NamesIn(rows)) == multiset(names) && Distinct(names)
    ensures DistinctCells(rows)
  {
    DistinctPermute(names, NamesIn(rows));
    assert forall i :: 0 <= i < |rows| ==> NamesIn(rows)[i] == BaseCell(rows[i]);
  }

  /** If the items stand for different cells, and the resolved queue holds each of them once, in any order,
      under the prefix of its matrix, then the queue passes every check against the plans. */
  lemma ResolvedQueuePasses(items: seq<WorkItem>, authorities: string -> Authority, chunks: seq<Chunk>, full: real, ceiling: real,
                            campaign: string, library: string -> string, rows: seq<QueueRow>)
    requires forall item :: item in items ==> Split(item, authorities(item.batchAuthority)).Success?
    requires IsGreedy(chunks, AllBundles(items, authorities), full, ceiling)
    requires Distinct(FlatMap(items, ItemCells(authorities)))
    requires forall cell :: cell in FlatMap(items, ItemCells(authorities)) ==> ':' !in cell.routeId
    requires multiset(NamesIn(rows)) == multiset(PlanNames(campaign, PlansOf(chunks), CellName(library)))
    ensures Partitions(campaign, SpecsOf(PlansOf(chunks)), rows, ExecutionsOf(items))
  {
    hide Split, IsGreedy, AllBundles, FlatMap, ItemCells, PlanNames, NamesIn, TotalExecutions, ExecutionsOf, ChunkRows, Owned, DistinctCells;
    hide PlanCells, NamesApart, Distinct, CellName;
    var plans, tail := PlansOf(chunks), CellName(library);
    var planned, cells := FlatMap(items, ItemCells(authorities)), FlatMap(plans, PlanCells);
    PlansConserve(items, authorities, AllBundles(items, authorities), chunks, full, ceiling);
    PlansCoverExecutions(items, authorities, chunks, full, ceiling);
    DistinctPermute(planned, cells);
    forall cell | cell in cells
      ensures ':' !in cell.routeId
    {
      assert cell in multiset(planned);
    }
    CellNamesApart(library, cells);
    PlanNamesDistinct(campaign, plans, tail);
    DistinctRows(rows, PlanNames(campaign, plans, tail));
    RowsOwned(campaign, plans, tail, rows);
    forall c | 0 <= c < |plans|
      ensures |ChunkRows(campaign, SpecsOf(plans), rows, c)| == SpecsOf(plans)[c].executions
    {
      ChunkRowsCounted(campaign, plans, tail, rows, c);
    }
  }
}
