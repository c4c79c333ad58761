/** Matching the resolved queue back to the chunks by name prefix, and the checks that make it
    a partition. */
module QueuePartition {
  import opened Results
  import opened Decimals
  import opened Sequences
  import opened Grouping

  datatype QueueRow = QueueRow(position: nat, baseCell: string, factorVariants: seq<string>, state: string)

  /** What the check needs of a chunk: how many matrices it has and how many cells it expects. */
  datatype ChunkSpec = ChunkSpec(matrices: nat, executions: nat)

  datatype PartitionError =
    | WrongCellCount(position: nat)
    | DuplicateCells
    | WrongTotal
    | NotPartitioned

  function MatrixPrefix(campaign: string, chunk: nat, matrix: nat): string {
    campaign + "-chunk-" + (Padded(3, chunk) + ("-width-" + (Padded(2, matrix) + ":")))
  }

  predicate StartsWith(s: string, prefix: string) {
    prefix <= s
  }

  /** A name that begins with two matrix prefixes begins with one: no prefix of one campaign
      is a prefix of another, however many chunks and matrices there are. */
  lemma PrefixesAreFree(campaign: string, chunk: nat, matrix: nat, chunk': nat, matrix': nat, name: string)
    requires StartsWith(name, MatrixPrefix(campaign, chunk, matrix))
    requires StartsWith(name, MatrixPrefix(campaign, chunk', matrix'))
    ensures chunk == chunk' && matrix == matrix'
  {
    hide Padded;
    var head := campaign + "-chunk-";
    var tail, tail' := "-width-" + (Padded(2, matrix) + ":"), "-width-" + (Padded(2, matrix') + ":");
    AfterHead(name, head, Padded(3, chunk) + tail);
    AfterHead(name, head, Padded(3, chunk') + tail');
    var rest := name[|head|..];
    DigitRunUnique(rest, Padded(3, chunk), tail, Padded(3, chunk'), tail');
    rest := rest[|Padded(3, chunk)|..];
    AfterHead(rest, "-width-", Padded(2, matrix) + ":");
    AfterHead(rest, "-width-", Padded(2, matrix') + ":");
    DigitRunUnique(rest[7..], Padded(2, matrix), ":", Padded(2, matrix'), ":");
    PaddedValue(3, chunk);
    PaddedValue(3, chunk');
    PaddedValue(2, matrix);
    PaddedValue(2, matrix');
  }

  lemma AfterHead(text: string, head: string, body: string)
    requires head + body <= text
    ensures |head| <= |text| && body <= text[|head|..]
  {
    assert text[..|head + body|] == head + body;
    assert text[|head|..][..|body|] == body;
  }

  predicate InChunk(campaign: string, chunk: nat, matrices: nat, name: string) {
    exists g :: 1 <= g <= matrices && StartsWith(name, MatrixPrefix(campaign, chunk, g))
  }

  /** The rows of one chunk, in queue order. */
  function SelectRows(rows: seq<QueueRow>, campaign: string, chunk: nat, matrices: nat): seq<QueueRow> {
    Select(rows, (row: QueueRow) => InChunk(campaign, chunk, matrices, row.baseCell))
  }

  function Renumber(rows: seq<QueueRow>): (r: seq<QueueRow>)
    ensures |r| == |rows|
  {
    seq(|rows|, i requires 0 <= i < |rows| => rows[i].(position := i + 1))
  }

  function CellsOf(rows: seq<QueueRow>): set<string> {
    set i | 0 <= i < |rows| :: rows[i].baseCell
  }

  function TotalExecutions(chunks: seq<ChunkSpec>): nat {
    if chunks == [] then 0 else TotalExecutions(chunks[..|chunks| - 1]) + chunks[|chunks| - 1].executions
  }

  /** The rows of the chunk listed at `c`, which is numbered from 1. */
  function ChunkRows(campaign: string, chunks: seq<ChunkSpec>, rows: seq<QueueRow>, c: nat): seq<QueueRow>
    requires c < |chunks|
  {
    SelectRows(rows, campaign, c + 1, chunks[c].matrices)
  }

  ghost predicate Owns(campaign: string, chunks: seq<ChunkSpec>, c: nat, name: string) {
    c < |chunks| && InChunk(campaign, c + 1, chunks[c].matrices, name)
  }

  /** One of the first `n` chunks owns the name. */
  ghost predicate Owned(campaign: string, chunks: seq<ChunkSpec>, n: nat, name: string) {
    exists c: nat :: c < n && Owns(campaign, chunks, c, name)
  }

  function BaseCell(row: QueueRow): string { row.baseCell }

  ghost predicate DistinctCells(rows: seq<QueueRow>) {
    DistinctBy(rows, BaseCell)
  }

  /** When the chunks truly partition the queue, with the expected sizes. */
  ghost predicate Partitions(campaign: string, chunks: seq<ChunkSpec>, rows: seq<QueueRow>, expected: nat) {
    && (forall c :: 0 <= c < |chunks| ==> |ChunkRows(campaign, chunks, rows, c)| == chunks[c].executions)
    && TotalExecutions(chunks) == expected
    && DistinctCells(rows)
    && (forall i :: 0 <= i < |rows| ==> Owned(campaign, chunks, |chunks|, rows[i].baseCell))
  }

  // ---------- In terms of the names alone ----------

  /** The name is the campaign's, with the chunk's number in three digits or more, and the number of one
      of its matrices in two or more; `rest` is what follows. */
  ghost predicate Spelled(campaign: string, chunk: nat, matrices: nat, name: string, c: string, w: string, rest: string) {
    && name == campaign + "-chunk-" + c + "-width-" + w + ":" + rest
    && Numeral(c, 3, chunk)
    && AllDigits(w) && 1 <= ValueOf(w) <= matrices && Numeral(w, 2, ValueOf(w))
  }

  ghost predicate Named(campaign: string, chunk: nat, matrices: nat, name: string) {
    exists c, w, rest :: Spelled(campaign, chunk, matrices, name, c, w, rest)
  }

  /** The names that a chunk owns. */
  lemma InChunkIff(campaign: string, chunk: nat, matrices: nat, name: string)
    ensures InChunk(campaign, chunk, matrices, name) <==> Named(campaign, chunk, matrices, name)
  {
    hide Padded, MatrixPrefix, Numeral;
    if InChunk(campaign, chunk, matrices, name) {
      var g :| 1 <= g <= matrices && StartsWith(name, MatrixPrefix(campaign, chunk, g));
      var rest := name[|MatrixPrefix(campaign, chunk, g)|..];
      assert name == MatrixPrefix(campaign, chunk, g) + rest;
      PrefixText(campaign, chunk, g, rest);
      PaddedIff(3, chunk, Padded(3, chunk));
      PaddedIff(2, g, Padded(2, g));
      PaddedValue(2, g);
      assert Spelled(campaign, chunk, matrices, name, Padded(3, chunk), Padded(2, g), rest);
    }
    if Named(campaign, chunk, matrices, name) {
      var c, w, rest :| Spelled(campaign, chunk, matrices, name, c, w, rest);
      PaddedIff(3, chunk, c);
      PaddedIff(2, ValueOf(w), w);
      PrefixText(campaign, chunk, ValueOf(w), rest);
      assert StartsWith(name, MatrixPrefix(campaign, chunk, ValueOf(w)));
    }
  }

  lemma PrefixText(campaign: string, chunk: nat, matrix: nat, rest: string)
    ensures MatrixPrefix(campaign, chunk, matrix) + rest
         == campaign + "-chunk-" + Padded(3, chunk) + "-width-" + Padded(2, matrix) + ":" + rest
  {
    hide Padded;
  }

  /** `found` are the rows at the given places, numbered from 1: those with names of the chunk, in queue order. */
  ghost predicate RowsAt(campaign: string, chunk: nat, matrices: nat, rows: seq<QueueRow>, found: seq<QueueRow>, at: seq<nat>) {
    && |at| == |found|
    && (forall i :: 0 <= i < |at| ==> at[i] < |rows| && found[i] == rows[at[i]].(position := i + 1))
    && (forall i, j :: 0 <= i < j < |at| ==> at[i] < at[j])
    && (forall k: nat :: k in at <==> k < |rows| && Named(campaign, chunk, matrices, rows[k].baseCell))
  }

  ghost predicate RowsNamed(campaign: string, chunk: nat, matrices: nat, rows: seq<QueueRow>, found: seq<QueueRow>) {
    exists at :: RowsAt(campaign, chunk, matrices, rows, found, at)
  }

  lemma ChunkRowsAre(campaign: string, chunk: nat, matrices: nat, rows: seq<QueueRow>) returns (at: seq<nat>)
    ensures RowsAt(campaign, chunk, matrices, rows, Renumber(SelectRows(rows, campaign, chunk, matrices)), at)
  {
    hide InChunk, Named, Select;
    var wanted := (row: QueueRow) => InChunk(campaign, chunk, matrices, row.baseCell);
    at := SelectEmbeds(rows, wanted);
    forall k: nat | k < |rows|
      ensures wanted(rows[k]) <==> Named(campaign, chunk, matrices, rows[k].baseCell)
    {
      InChunkIff(campaign, chunk, matrices, rows[k].baseCell);
    }
  }

  lemma ChunkRowsNamed(campaign: string, chunk: nat, matrices: nat, rows: seq<QueueRow>)
    ensures RowsNamed(campaign, chunk, matrices, rows, Renumber(SelectRows(rows, campaign, chunk, matrices)))
  {
    hide RowsAt;
    var at := ChunkRowsAre(campaign, chunk, matrices, rows);
  }

  /** The places of the rows whose names belong to the chunk. */
  ghost function NamedRows(campaign: string, chunk: nat, matrices: nat, rows: seq<QueueRow>): set<nat> {
    set k: nat | k < |rows| && Named(campaign, chunk, matrices, rows[k].baseCell)
  }

  lemma CountNamed(campaign: string, chunk: nat, matrices: nat, rows: seq<QueueRow>)
    ensures |SelectRows(rows, campaign, chunk, matrices)| == |NamedRows(campaign, chunk, matrices, rows)|
  {
    hide SelectRows, Named;
    var at := ChunkRowsAre(campaign, chunk, matrices, rows);
    assert Distinct(at);
    DistinctSize(at, NamedRows(campaign, chunk, matrices, rows));
  }

  /** Every chunk has as many rows to its name as it expects cells. */
  ghost predicate SizesFit(campaign: string, chunks: seq<ChunkSpec>, rows: seq<QueueRow>) {
    forall c :: 0 <= c < |chunks| ==> |NamedRows(campaign, c + 1, chunks[c].matrices, rows)| == chunks[c].executions
  }

  ghost predicate NamedSomewhere(campaign: string, chunks: seq<ChunkSpec>, name: string) {
    exists c :: 0 <= c < |chunks| && Named(campaign, c + 1, chunks[c].matrices, name)
  }

  /** No two rows have the same name, and every name belongs to some chunk. */
  ghost predicate RowsPartitioned(campaign: string, chunks: seq<ChunkSpec>, rows: seq<QueueRow>) {
    && (forall i, j :: 0 <= i < j < |rows| ==> rows[i].baseCell != rows[j].baseCell)
    && (forall i :: 0 <= i < |rows| ==> NamedSomewhere(campaign, chunks, rows[i].baseCell))
  }

  /** The first chunk that has not. */
  ghost predicate MisfitAt(campaign: string, chunks: seq<ChunkSpec>, rows: seq<QueueRow>, n: nat) {
    && n < |chunks| && |NamedRows(campaign, n + 1, chunks[n].matrices, rows)| != chunks[n].executions
    && forall c :: 0 <= c < n ==> |NamedRows(campaign, c + 1, chunks[c].matrices, rows)| == chunks[c].executions
  }

  lemma FirstMisfit(campaign: string, chunks: seq<ChunkSpec>, rows: seq<QueueRow>, n: nat)
    requires n < |chunks| && |ChunkRows(campaign, chunks, rows, n)| != chunks[n].executions
    requires forall c :: 0 <= c < n ==> |ChunkRows(campaign, chunks, rows, c)| == chunks[c].executions
    ensures MisfitAt(campaign, chunks, rows, n) && !SizesFit(campaign, chunks, rows)
  {
    hide SelectRows, NamedRows;
    SizesAreCounts(campaign, chunks, rows);
  }

  lemma NoMisfit(campaign: string, chunks: seq<ChunkSpec>, rows: seq<QueueRow>)
    requires forall c :: 0 <= c < |chunks| ==> |ChunkRows(campaign, chunks, rows, c)| == chunks[c].executions
    ensures SizesFit(campaign, chunks, rows)
  {
    hide SelectRows, NamedRows;
    SizesAreCounts(campaign, chunks, rows);
  }

  lemma SizesAreCounts(campaign: string, chunks: seq<ChunkSpec>, rows: seq<QueueRow>)
    ensures forall c :: 0 <= c < |chunks| ==>
      |ChunkRows(campaign, chunks, rows, c)| == |NamedRows(campaign, c + 1, chunks[c].matrices, rows)|
  {
    hide SelectRows, NamedRows;
    forall c | 0 <= c < |chunks|
      ensures |ChunkRows(campaign, chunks, rows, c)| == |NamedRows(campaign, c + 1, chunks[c].matrices, rows)|
    {
      CountNamed(campaign, c + 1, chunks[c].matrices, rows);
    }
  }

  lemma OwnedIff(campaign: string, chunks: seq<ChunkSpec>, name: string)
    ensures Owned(campaign, chunks, |chunks|, name) <==> NamedSomewhere(campaign, chunks, name)
  {
    hide Named, InChunk;
    forall c | 0 <= c < |chunks|
      ensures Owns(campaign, chunks, c, name) <==> Named(campaign, c + 1, chunks[c].matrices, name)
    {
      InChunkIff(campaign, c + 1, chunks[c].matrices, name);
    }
  }

  lemma DistinctCellsIff(rows: seq<QueueRow>)
    ensures DistinctCells(rows) <==> forall i, j :: 0 <= i < j < |rows| ==> rows[i].baseCell != rows[j].baseCell
  {
    if DistinctCells(rows) {
      forall i, j | 0 <= i < j < |rows|
        ensures rows[i].baseCell != rows[j].baseCell
      {
        assert BaseCell(rows[i]) != BaseCell(rows[j]);
      }
    }
  }

  lemma RowsPartitionedIff(campaign: string, chunks: seq<ChunkSpec>, rows: seq<QueueRow>)
    ensures RowsPartitioned(campaign, chunks, rows) <==>
      DistinctCells(rows) && forall i :: 0 <= i < |rows| ==> Owned(campaign, chunks, |chunks|, rows[i].baseCell)
  {
    hide NamedSomewhere, Owned, DistinctCells;
    DistinctCellsIff(rows);
    forall i | 0 <= i < |rows|
      ensures Owned(campaign, chunks, |chunks|, rows[i].baseCell) <==> NamedSomewhere(campaign, chunks, rows[i].baseCell)
    {
      OwnedIff(campaign, chunks, rows[i].baseCell);
    }
  }

  method MatchQueue(campaign: string, chunks: seq<ChunkSpec>, rows: seq<QueueRow>, expected: nat)
    returns (r: Result<seq<seq<QueueRow>>, PartitionError>)
    ensures r.Success? <==> Partitions(campaign, chunks, rows, expected)
    ensures r.Success? <==>
      && SizesFit(campaign, chunks, rows) && TotalExecutions(chunks) == expected && RowsPartitioned(campaign, chunks, rows)
    ensures r == Failure(WrongTotal) <==> SizesFit(campaign, chunks, rows) && TotalExecutions(chunks) != expected
    ensures r == Failure(NotPartitioned) <==>
      && SizesFit(campaign, chunks, rows) && TotalExecutions(chunks) == expected && !RowsPartitioned(campaign, chunks, rows)
    ensures !SizesFit(campaign, chunks, rows) <==> r.Failure? && r.error.WrongCellCount?
    ensures r.Failure? && r.error.WrongCellCount? ==>
      r.error.position >= 1 && MisfitAt(campaign, chunks, rows, r.error.position - 1)
    ensures r != Failure(DuplicateCells)
    ensures r.Success? ==> |r.value| == |chunks| && forall c :: 0 <= c < |chunks| ==>
      RowsNamed(campaign, c + 1, chunks[c].matrices, rows, r.value[c])
  {
    hide SelectRows, MatrixPrefix, InChunk, Owned, DistinctCells, NamedRows, RowsNamed, RowsAt, RowsPartitioned, ClaimedCells, CellsOf, MisfitAt, SizesFit;
    RowsPartitionedIff(campaign, chunks, rows);
    var claimed: set<string> := {};
    var identities := [];
    var total := 0;
    NothingClaimed(campaign, chunks, rows);
    for n := 0 to |chunks|
      invariant |identities| == n && total == TotalExecutions(chunks[..n])
      invariant claimed == ClaimedCells(campaign, chunks, n, rows)
      invariant forall c :: 0 <= c < n ==> |ChunkRows(campaign, chunks, rows, c)| == chunks[c].executions
      invariant forall c :: 0 <= c < n ==> RowsNamed(campaign, c + 1, chunks[c].matrices, rows, identities[c])
    {
      var selected := SelectRows(rows, campaign, n + 1, chunks[n].matrices);
      var identity := Renumber(selected);
      assert selected == ChunkRows(campaign, chunks, rows, n);
      ChunkRowsNamed(campaign, n + 1, chunks[n].matrices, rows);
      if |identity| != chunks[n].executions {
        FirstMisfit(campaign, chunks, rows, n);
        return Failure(WrongCellCount(n + 1));
      }
      var baseCells := CellsOf(identity);
      ChunkCells(rows, campaign, n + 1, chunks[n].matrices);
      ClaimsAreDisjoint(campaign, chunks, n, rows);
      if claimed * baseCells != {} {
        return Failure(DuplicateCells);
      }
      ClaimOneMore(campaign, chunks, n, rows);
      claimed := claimed + baseCells;
      identities := identities + [identity];
      assert chunks[..n + 1][..n] == chunks[..n];
      total := total + chunks[n].executions;
    }
    assert chunks[..|chunks|] == chunks;
    NoMisfit(campaign, chunks, rows);
    if total != expected {
      return Failure(WrongTotal);
    }
    ClaimedAll(campaign, chunks, rows);
    if |claimed| != |rows| {
      return Failure(NotPartitioned);
    }
    r := Success(identities);
  }

  /** The cells claimed after the first `n` chunks. */
  ghost function ClaimedCells(campaign: string, chunks: seq<ChunkSpec>, n: nat, rows: seq<QueueRow>): set<string> {
    set i | 0 <= i < |rows| && Owned(campaign, chunks, n, rows[i].baseCell) :: rows[i].baseCell
  }

  lemma NothingClaimed(campaign: string, chunks: seq<ChunkSpec>, rows: seq<QueueRow>)
    ensures ClaimedCells(campaign, chunks, 0, rows) == {}
  {
  }

  lemma {:induction false} SelectedIn(rows: seq<QueueRow>, campaign: string, chunk: nat, matrices: nat)
    ensures forall x :: x in CellsOf(SelectRows(rows, campaign, chunk, matrices)) <==>
      x in CellsOf(rows) && InChunk(campaign, chunk, matrices, x)
  {
    hide InChunk;
    if rows != [] {
      var n := |rows| - 1;
      SelectedIn(rows[..n], campaign, chunk, matrices);
      CellsSnoc(rows[..n], rows[n]);
      assert rows == rows[..n] + [rows[n]];
      CellsSnoc(SelectRows(rows[..n], campaign, chunk, matrices), rows[n]);
    }
  }

  lemma CellsSnoc(rows: seq<QueueRow>, row: QueueRow)
    ensures CellsOf(rows + [row]) == CellsOf(rows) + {row.baseCell}
  {
    var more := rows + [row];
    assert more[|rows|] == row;
    assert forall i :: 0 <= i < |rows| ==> more[i] == rows[i];
  }

  lemma ChunkCells(rows: seq<QueueRow>, campaign: string, chunk: nat, matrices: nat)
    ensures forall x :: x in CellsOf(Renumber(SelectRows(rows, campaign, chunk, matrices))) <==>
      x in CellsOf(rows) && InChunk(campaign, chunk, matrices, x)
  {
    hide InChunk, SelectRows;
    var selected := SelectRows(rows, campaign, chunk, matrices);
    SelectedIn(rows, campaign, chunk, matrices);
    assert forall i :: 0 <= i < |selected| ==> Renumber(selected)[i].baseCell == selected[i].baseCell;
    assert CellsOf(Renumber(selected)) == CellsOf(selected);
  }

  /** No name belongs to two chunks. */
  lemma OneOwner(campaign: string, chunks: seq<ChunkSpec>, c: nat, c': nat, name: string)
    requires Owns(campaign, chunks, c, name) && Owns(campaign, chunks, c', name)
    ensures c == c'
  {
    hide MatrixPrefix;
    var g :| 1 <= g <= chunks[c].matrices && StartsWith(name, MatrixPrefix(campaign, c + 1, g));
    var g' :| 1 <= g' <= chunks[c'].matrices && StartsWith(name, MatrixPrefix(campaign, c' + 1, g'));
    PrefixesAreFree(campaign, c + 1, g, c' + 1, g', name);
  }

  lemma ClaimsAreDisjoint(campaign: string, chunks: seq<ChunkSpec>, n: nat, rows: seq<QueueRow>)
    requires n < |chunks|
    ensures forall x :: x in ClaimedCells(campaign, chunks, n, rows) ==> !InChunk(campaign, n + 1, chunks[n].matrices, x)
  {
    hide InChunk;
    forall x | x in ClaimedCells(campaign, chunks, n, rows)
      ensures !InChunk(campaign, n + 1, chunks[n].matrices, x)
    {
      var c: nat :| c < n && Owns(campaign, chunks, c, x);
      if InChunk(campaign, n + 1, chunks[n].matrices, x) {
        OneOwner(campaign, chunks, c, n, x);
      }
    }
  }

  lemma OwnedByOneMore(campaign: string, chunks: seq<ChunkSpec>, n: nat, name: string)
    requires n < |chunks|
    ensures Owned(campaign, chunks, n + 1, name) <==>
      Owned(campaign, chunks, n, name) || InChunk(campaign, n + 1, chunks[n].matrices, name)
  {
    hide InChunk;
    assert Owns(campaign, chunks, n, name) <==> InChunk(campaign, n + 1, chunks[n].matrices, name);
  }

  lemma ClaimOneMore(campaign: string, chunks: seq<ChunkSpec>, n: nat, rows: seq<QueueRow>)
    requires n < |chunks|
    ensures forall x :: x in ClaimedCells(campaign, chunks, n + 1, rows) <==>
      x in ClaimedCells(campaign, chunks, n, rows) || (x in CellsOf(rows) && InChunk(campaign, n + 1, chunks[n].matrices, x))
  {
    hide InChunk, Owned;
    forall i | 0 <= i < |rows|
      ensures Owned(campaign, chunks, n + 1, rows[i].baseCell) <==>
        Owned(campaign, chunks, n, rows[i].baseCell) || InChunk(campaign, n + 1, chunks[n].matrices, rows[i].baseCell)
    {
      OwnedByOneMore(campaign, chunks, n, rows[i].baseCell);
    }
  }

  lemma DistinctSnoc(rows: seq<QueueRow>, row: QueueRow)
    ensures DistinctCells(rows + [row]) <==> DistinctCells(rows) && row.baseCell !in CellsOf(rows)
  {
    var more := rows + [row];
    assert forall i :: 0 <= i < |rows| ==> more[i] == rows[i];
    assert more[|rows|] == row;
    if DistinctCells(more) {
      forall i | 0 <= i < |rows| ensures rows[i].baseCell != row.baseCell {
        assert more[i].baseCell != more[|rows|].baseCell;
      }
      forall i, j | 0 <= i < j < |rows| ensures rows[i].baseCell != rows[j].baseCell {
        assert more[i].baseCell != more[j].baseCell;
      }
    }
    if DistinctCells(rows) && row.baseCell !in CellsOf(rows) {
      forall i, j | 0 <= i < j < |more| ensures more[i].baseCell != more[j].baseCell {
        assert rows[i].baseCell in CellsOf(rows);
      }
    }
  }

  /** A list has as many different cells as entries exactly when no cell repeats. */
  lemma {:induction false} CountDistinct(rows: seq<QueueRow>)
    ensures |CellsOf(rows)| <= |rows|
    ensures |CellsOf(rows)| == |rows| <==> DistinctCells(rows)
  {
    hide CellsOf, DistinctCells;
    if rows == [] {
      NoRows();
    } else {
      var front, last := rows[..|rows| - 1], rows[|rows| - 1];
      CountDistinct(front);
      CellsSnoc(front, last);
      DistinctSnoc(front, last);
      assert rows == front + [last];
      if last.baseCell in CellsOf(front) {
        assert CellsOf(rows) == CellsOf(front);
      }
    }
  }

  lemma NoRows()
    ensures CellsOf([]) == {} && DistinctCells([])
  {
  }

  /** The final count check says that cells are distinct and that none is left over. */
  lemma ClaimedAll(campaign: string, chunks: seq<ChunkSpec>, rows: seq<QueueRow>)
    ensures |ClaimedCells(campaign, chunks, |chunks|, rows)| == |rows| <==>
      DistinctCells(rows) && forall i :: 0 <= i < |rows| ==> Owned(campaign, chunks, |chunks|, rows[i].baseCell)
  {
    hide Owned, DistinctCells;
    var claimed, cells := ClaimedCells(campaign, chunks, |chunks|, rows), CellsOf(rows);
    CountDistinct(rows);
    assert claimed <= cells;
    SubsetSize(claimed, cells);
    if |claimed| == |rows| {
      forall i | 0 <= i < |rows|
        ensures Owned(campaign, chunks, |chunks|, rows[i].baseCell)
      {
        assert rows[i].baseCell in claimed;
      }
    }
    if forall i :: 0 <= i < |rows| ==> Owned(campaign, chunks, |chunks|, rows[i].baseCell) {
      assert claimed == cells;
    }
  }

  lemma SubsetSize<T>(a: set<T>, b: set<T>)
    requires a <= b
    ensures |a| <= |b|
    ensures |a| == |b| ==> a == b
  {
    assert b == a + (b - a);
    assert |b| == |a| + |b - a|;
  }

  /** After a successful check every queue row lands in exactly one chunk. */
  lemma EveryRowInOneChunk(campaign: string, chunks: seq<ChunkSpec>, rows: seq<QueueRow>, expected: nat, i: nat)
    returns (owner: nat)
    requires Partitions(campaign, chunks, rows, expected) && i < |rows|
    ensures forall c :: Owns(campaign, chunks, c, rows[i].baseCell) <==> c == owner
  {
    hide InChunk;
    assert Owned(campaign, chunks, |chunks|, rows[i].baseCell);
    owner :| owner < |chunks| && Owns(campaign, chunks, owner, rows[i].baseCell);
    forall c | Owns(campaign, chunks, c, rows[i].baseCell)
      ensures c == owner
    {
      OneOwner(campaign, chunks, c, owner, rows[i].baseCell);
    }
  }
}
