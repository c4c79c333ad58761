/** The text that the comparison digest is taken of: a JSON array with one object per cell,
    keys sorted, no spaces. */
module CellPayload {
  import opened Decimals
  import opened JsonText
  import opened Sequences

  /** The eight fields of a cell that count as its meaning. */
  datatype SemanticCell = SemanticCell(
    routeId: string,
    treatmentId: string,
    status: string,
    signatureSha256: string,
    signatureRecords: int,
    fidAttempted: int,
    fidAdded: int,
    fidExcluded: int)

  datatype Piece = Literal(text: string) | Number(number: int) | Text(value: string)

  function RenderPiece(piece: Piece): string {
    match piece
    case Literal(text) => text
    case Number(number) => IntText(number)
    case Text(value) => Quote(value, true)
  }

  function Render(pieces: seq<Piece>): string {
    if pieces == [] then "" else RenderPiece(pieces[0]) + Render(pieces[1..])
  }

  function Pieces(cell: SemanticCell): seq<Piece> {
    [Literal("{\"canonical_signature_records\":"), Number(cell.signatureRecords),
     Literal(",\"canonical_signature_sha256\":"), Text(cell.signatureSha256),
     Literal(",\"fid_added\":"), Number(cell.fidAdded),
     Literal(",\"fid_attempted\":"), Number(cell.fidAttempted),
     Literal(",\"fid_excluded\":"), Number(cell.fidExcluded),
     Literal(",\"route_id\":"), Text(cell.routeId),
     Literal(",\"status\":"), Text(cell.status),
     Literal(",\"treatment_id\":"), Text(cell.treatmentId),
     Literal("}")]
  }

  function CellText(cell: SemanticCell): string {
    Render(Pieces(cell))
  }

  function MoreCells(cells: seq<SemanticCell>): string {
    if cells == [] then "]" else "," + (CellText(cells[0]) + MoreCells(cells[1..]))
  }

  /** The digest's input for a list of cells. */
  function Payload(cells: seq<SemanticCell>): string {
    if cells == [] then "[]" else "[" + (CellText(cells[0]) + MoreCells(cells[1..]))
  }

  // ---------- Different cells, different text ----------

  ghost predicate ShapeAt(a: seq<Piece>, b: seq<Piece>, i: nat)
    requires i < |a| == |b|
  {
    match a[i]
    case Literal(text) => b[i] == a[i] && text != [] && !IsDigit(text[0])
    case Number(_) => b[i].Number? && i + 1 < |a| && a[i + 1].Literal?
    case Text(_) => b[i].Text?
  }

  /** Same kind of piece at every place, the same literals, and no digit right behind a number. */
  ghost predicate SameShape(a: seq<Piece>, b: seq<Piece>) {
    |a| == |b| && forall i :: 0 <= i < |a| ==> ShapeAt(a, b, i)
  }

  lemma SameHead(head: string, rest: string, other: string)
    requires head + rest == head + other
    ensures rest == other
  {
    assert rest == (head + rest)[|head|..];
    assert other == (head + other)[|head|..];
  }

  lemma LiteralEndsNumber(pieces: seq<Piece>, rest: string)
    requires pieces != [] && pieces[0].Literal? && pieces[0].text != [] && !IsDigit(pieces[0].text[0])
    ensures EndsNumber(Render(pieces) + rest)
  {
    assert (Render(pieces) + rest)[0] == pieces[0].text[0];
  }

  lemma RenderHead(pieces: seq<Piece>, rest: string)
    requires pieces != []
    ensures Render(pieces) + rest == RenderPiece(pieces[0]) + (Render(pieces[1..]) + rest)
  {
    hide RenderPiece;
    Associative(RenderPiece(pieces[0]), Render(pieces[1..]), rest);
  }

  /** Two renderings of one shape that begin the same text are the same, piece by piece. */
  lemma {:induction false} RenderUnique(a: seq<Piece>, b: seq<Piece>, rest: string, other: string)
    requires SameShape(a, b) && Render(a) + rest == Render(b) + other
    ensures a == b && rest == other
  {
    hide IntText, Quote;
    if a == [] {
      assert Render(a) + rest == rest && Render(b) + other == other;
    } else {
      RenderHead(a, rest);
      RenderHead(b, other);
      ShapeTail(a, b);
      var tailA, tailB := Render(a[1..]) + rest, Render(b[1..]) + other;
      FirstPieceUnique(a, b, tailA, tailB, rest, other);
      RenderUnique(a[1..], b[1..], rest, other);
      assert a == [a[0]] + a[1..] && b == [b[0]] + b[1..];
    }
  }

  lemma ShapeTail(a: seq<Piece>, b: seq<Piece>)
    requires SameShape(a, b) && a != []
    ensures SameShape(a[1..], b[1..])
  {
    forall i | 0 <= i < |a| - 1
      ensures ShapeAt(a[1..], b[1..], i)
    {
      assert ShapeAt(a, b, i + 1);
    }
  }

  lemma FirstPieceUnique(a: seq<Piece>, b: seq<Piece>, tailA: string, tailB: string, rest: string, other: string)
    requires SameShape(a, b) && a != []
    requires tailA == Render(a[1..]) + rest && tailB == Render(b[1..]) + other
    requires RenderPiece(a[0]) + tailA == RenderPiece(b[0]) + tailB
    ensures a[0] == b[0] && tailA == tailB
  {
    hide IntText, Quote, Render;
    assert ShapeAt(a, b, 0);
    match a[0] {
      case Literal(text) =>
        SameHead(text, tailA, tailB);
      case Number(m) =>
        assert ShapeAt(a, b, 1);
        assert a[1..][0] == a[1] && b[1..][0] == b[1] && a[1] == b[1];
        LiteralEndsNumber(a[1..], rest);
        LiteralEndsNumber(b[1..], other);
        IntTextUnique(m, b[0].number, tailA, tailB);
      case Text(value) =>
        QuoteUnique(value, b[0].value, true, tailA, tailB);
    }
  }

  lemma CellsHaveOneShape(a: SemanticCell, b: SemanticCell)
    ensures SameShape(Pieces(a), Pieces(b))
  {
    var p, q := Pieces(a), Pieces(b);
    forall i | 0 <= i < |p|
      ensures ShapeAt(p, q, i)
    {
    }
  }

  lemma CellTextUnique(a: SemanticCell, b: SemanticCell, rest: string, other: string)
    requires CellText(a) + rest == CellText(b) + other
    ensures a == b && rest == other
  {
    hide Render, SameShape;
    CellsHaveOneShape(a, b);
    RenderUnique(Pieces(a), Pieces(b), rest, other);
    SamePiecesSameCell(a, b);
  }

  lemma SamePiecesSameCell(a: SemanticCell, b: SemanticCell)
    requires Pieces(a) == Pieces(b)
    ensures a == b
  {
    assert Pieces(a)[1] == Pieces(b)[1] && Pieces(a)[3] == Pieces(b)[3] && Pieces(a)[5] == Pieces(b)[5];
    assert Pieces(a)[7] == Pieces(b)[7] && Pieces(a)[9] == Pieces(b)[9] && Pieces(a)[11] == Pieces(b)[11];
    assert Pieces(a)[13] == Pieces(b)[13] && Pieces(a)[15] == Pieces(b)[15];
  }

  lemma {:induction false} MoreCellsUnique(a: seq<SemanticCell>, b: seq<SemanticCell>)
    requires MoreCells(a) == MoreCells(b)
    ensures a == b
  {
    hide CellText;
    assert a == [] <==> MoreCells(a)[0] == ']';
    assert b == [] <==> MoreCells(b)[0] == ']';
    if a != [] {
      SameHead(",", CellText(a[0]) + MoreCells(a[1..]), CellText(b[0]) + MoreCells(b[1..]));
      CellTextUnique(a[0], b[0], MoreCells(a[1..]), MoreCells(b[1..]));
      MoreCellsUnique(a[1..], b[1..]);
      assert a == [a[0]] + a[1..] && b == [b[0]] + b[1..];
    }
  }

  lemma CellTextOpens(cell: SemanticCell, rest: string)
    ensures CellText(cell) + rest != [] && (CellText(cell) + rest)[0] == '{'
  {
    RenderHead(Pieces(cell), rest);
  }

  /** The payload determines the cells: equal digest inputs mean equal cell lists. */
  lemma PayloadUnique(a: seq<SemanticCell>, b: seq<SemanticCell>)
    ensures Payload(a) == Payload(b) <==> a == b
  {
    hide CellText, MoreCells;
    if Payload(a) == Payload(b) {
      if a != [] {
        CellTextOpens(a[0], MoreCells(a[1..]));
        assert Payload(a)[1] == '{';
      }
      if b != [] {
        CellTextOpens(b[0], MoreCells(b[1..]));
        assert Payload(b)[1] == '{';
      }
      if a != [] && b != [] {
        SameHead("[", CellText(a[0]) + MoreCells(a[1..]), CellText(b[0]) + MoreCells(b[1..]));
        CellTextUnique(a[0], b[0], MoreCells(a[1..]), MoreCells(b[1..]));
        MoreCellsUnique(a[1..], b[1..]);
        assert a == [a[0]] + a[1..] && b == [b[0]] + b[1..];
      }
    }
  }
}
