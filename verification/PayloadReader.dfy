/** A reader of the digested text, of arrays of objects as in section 4 and 5 of RFC 8259 without
    spaces: it finds every field of every cell under the field's own name. */
module PayloadReader {
  import opened Results
  import opened Decimals
  import opened JsonText
  import opened Sequences
  import opened CellPayload

  datatype Scalar = Amount(number: int) | Words(text: string)

  type Object = map<string, Scalar>

  // ---------- Reading ----------

  function ReadInteger(text: string): (r: Option<Read<int>>)
    ensures r.Some? ==> |r.value.rest| < |text|
  {
    var negative := text != [] && text[0] == '-';
    var body := if negative then text[1..] else text;
    var run := DigitRun(body);
    if run == 0 || (run > 1 && body[0] == '0') then None
    else
      var amount: int := ValueOf(body[..run]);
      Some(Read(if negative then -amount else amount, body[run..]))
  }

  function ReadScalar(text: string): (r: Option<Read<Scalar>>)
    ensures r.Some? ==> |r.value.rest| < |text|
  {
    if text != [] && text[0] == '"' then
      match ReadString(text, false)
      case None => None
      case Some(words) => Some(Read(Words(words.value), words.rest))
    else
      match ReadInteger(text)
      case None => None
      case Some(amount) => Some(Read(Amount(amount.value), amount.rest))
  }

  /** A name, a colon and a value. */
  function ReadMember(text: string): (r: Option<Read<(string, Scalar)>>)
    ensures r.Some? ==> |r.value.rest| < |text|
  {
    match ReadString(text, false)
    case None => None
    case Some(name) =>
      if name.rest == [] || name.rest[0] != ':' then None
      else
        match ReadScalar(name.rest[1..])
        case None => None
        case Some(value) => Some(Read((name.value, value.value), value.rest))
  }

  /** Members up to the closing brace; of members with one name the last one counts. */
  function ReadMembers(text: string): (r: Option<Read<Object>>)
    ensures r.Some? ==> |r.value.rest| < |text|
    decreases |text|
  {
    match ReadMember(text)
    case None => None
    case Some(first) =>
      var member: Object := map[first.value.0 := first.value.1];
      if first.rest == [] then None
      else if first.rest[0] == '}' then Some(Read(member, first.rest[1..]))
      else if first.rest[0] != ',' then None
      else
        match ReadMembers(first.rest[1..])
        case None => None
        case Some(more) => Some(Read(member + more.value, more.rest))
  }

  function ReadObject(text: string): (r: Option<Read<Object>>)
    ensures r.Some? ==> |r.value.rest| < |text|
  {
    if text == [] || text[0] != '{' then None else ReadMembers(text[1..])
  }

  /** The objects behind a first one, up to the closing bracket. */
  function ReadMore(text: string): Option<Read<seq<Object>>>
    decreases |text|
  {
    if text == [] then None
    else if text[0] == ']' then Some(Read([], text[1..]))
    else if text[0] != ',' then None
    else
      match ReadObject(text[1..])
      case None => None
      case Some(first) =>
        match ReadMore(first.rest)
        case None => None
        case Some(more) => Some(Read([first.value] + more.value, more.rest))
  }

  function ReadArray(text: string): Option<Read<seq<Object>>> {
    if text == [] || text[0] != '[' then None
    else if "[]" <= text then Some(Read([], text[2..]))
    else
      match ReadObject(text[1..])
      case None => None
      case Some(first) =>
        match ReadMore(first.rest)
        case None => None
        case Some(more) => Some(Read([first.value] + more.value, more.rest))
  }

  // ---------- Reading undoes printing ----------

  type Member = (string, Scalar)

  function ScalarText(value: Scalar): (s: string)
    ensures s != []
  {
    match value
    case Amount(number) => IntText(number)
    case Words(text) => Quote(text, true)
  }

  function MemberText(member: Member): string {
    Quote(member.0, true) + (":" + ScalarText(member.1))
  }

  function MembersText(members: seq<Member>): string {
    if members == [] then "}"
    else if |members| == 1 then MemberText(members[0]) + "}"
    else MemberText(members[0]) + ("," + MembersText(members[1..]))
  }

  function ObjectOf(members: seq<Member>): Object {
    if members == [] then map[]
    else ObjectOf(members[..|members| - 1])[members[|members| - 1].0 := members[|members| - 1].1]
  }

  lemma {:induction false} ObjectOfFirst(members: seq<Member>)
    requires members != []
    ensures ObjectOf(members) == map[members[0].0 := members[0].1] + ObjectOf(members[1..])
  {
    var n := |members| - 1;
    if n == 0 {
      assert members[..0] == [] && members[1..] == [];
      assert ObjectOf(members[..0]) == map[] && ObjectOf(members[1..]) == map[];
    } else {
      ObjectOfFirst(members[..n]);
      assert members[..n][1..] == members[1..][..n - 1];
    }
  }

  lemma IntegerRoundTrip(n: int, rest: string)
    requires EndsNumber(rest)
    ensures ReadInteger(IntText(n) + rest) == Some(Read(n, rest))
  {
    hide Digits, DigitRun, ValueOf;
    var natural := if n < 0 then -n else n;
    var text := IntText(n) + rest;
    DigitRunOf(Digits(natural), rest);
    DigitsValue(natural);
    OneDigit(natural);
    assert (Digits(natural) + rest)[0] == Digits(natural)[0];
    if n < 0 {
      assert text[0] == '-' && text[1..] == Digits(natural) + rest;
    } else {
      assert text == Digits(natural) + rest && IsDigit(text[0]);
    }
  }

  lemma ScalarRoundTrip(value: Scalar, rest: string)
    requires EndsNumber(rest)
    ensures ReadScalar(ScalarText(value) + rest) == Some(Read(value, rest))
  {
    hide ReadInteger, IntText, ReadString, Quote;
    match value {
      case Amount(number) =>
        IntegerRoundTrip(number, rest);
        IntegerStart(number);
        assert (IntText(number) + rest)[0] == IntText(number)[0];
      case Words(text) =>
        StringRoundTrip(text, true, false, rest);
        QuoteStart(text);
        assert (Quote(text, true) + rest)[0] == Quote(text, true)[0];
    }
  }

  lemma IntegerStart(n: int)
    ensures IntText(n)[0] != '"'
  {
    hide Digits;
  }

  lemma QuoteStart(s: string)
    ensures Quote(s, true) != [] && Quote(s, true)[0] == '"'
  {
  }

  lemma MemberRoundTrip(member: Member, rest: string)
    requires EndsNumber(rest)
    ensures ReadMember(MemberText(member) + rest) == Some(Read(member, rest))
  {
    hide ReadScalar, ScalarText, ReadString, Quote;
    var behind := ":" + (ScalarText(member.1) + rest);
    assert MemberText(member) + rest == Quote(member.0, true) + behind;
    StringRoundTrip(member.0, true, false, behind);
    assert behind[1..] == ScalarText(member.1) + rest;
    ScalarRoundTrip(member.1, rest);
  }

  lemma {:induction false} MembersRoundTrip(members: seq<Member>, rest: string)
    requires members != []
    ensures ReadMembers(MembersText(members) + rest) == Some(Read(ObjectOf(members), rest))
  {
    hide ReadMember, MemberText, ObjectOf;
    if |members| == 1 {
      var behind := "}" + rest;
      assert MembersText(members) + rest == MemberText(members[0]) + behind;
      MemberRoundTrip(members[0], behind);
      assert behind[1..] == rest;
      ObjectOfFirst(members);
      NothingRead();
      assert members[1..] == [];
      var alone: Object := map[members[0].0 := members[0].1];
      assert alone + map[] == alone;
    } else {
      var behind := "," + (MembersText(members[1..]) + rest);
      assert MembersText(members) + rest == MemberText(members[0]) + behind;
      MemberRoundTrip(members[0], behind);
      assert behind[1..] == MembersText(members[1..]) + rest;
      MembersRoundTrip(members[1..], rest);
      ObjectOfFirst(members);
    }
  }

  // ---------- The cells ----------

  /** The fields of a cell under their names, in the order of the names. */
  function MembersOf(cell: SemanticCell): seq<Member> {
    [("canonical_signature_records", Amount(cell.signatureRecords)),
     ("canonical_signature_sha256", Words(cell.signatureSha256)),
     ("fid_added", Amount(cell.fidAdded)),
     ("fid_attempted", Amount(cell.fidAttempted)),
     ("fid_excluded", Amount(cell.fidExcluded)),
     ("route_id", Words(cell.routeId)),
     ("status", Words(cell.status)),
     ("treatment_id", Words(cell.treatmentId))]
  }

  predicate PlainChar(c: char) {
    'a' <= c <= 'z' || '0' <= c <= '9' || c == '_'
  }

  lemma PlainIsBare(c: char)
    requires PlainChar(c)
    ensures EscapeChar(c, true) == [c]
  {
  }

  lemma {:induction false} PlainBody(name: string)
    requires forall i :: 0 <= i < |name| ==> PlainChar(name[i])
    ensures EscapeAll(name, true) == name
  {
    hide EscapeChar, PlainChar;
    if name != [] {
      PlainBody(name[1..]);
      PlainIsBare(name[0]);
      assert name == [name[0]] + name[1..];
    }
  }

  /** A name behind an opening brace or a comma, as the printer's literals have it. */
  lemma NameText(lead: string, name: string)
    requires forall i :: 0 <= i < |name| ==> PlainChar(name[i])
    ensures lead + (Quote(name, true) + ":") == lead + "\"" + name + "\":"
  {
    PlainBody(name);
  }

  function PieceOf(value: Scalar): Piece {
    match value
    case Amount(number) => Number(number)
    case Words(text) => Text(text)
  }

  /** The pieces that print members behind `lead`. */
  function PiecesOf(members: seq<Member>, lead: string): seq<Piece> {
    if members == [] then [Literal("}")]
    else
      [Literal(lead + (Quote(members[0].0, true) + ":")), PieceOf(members[0].1)] + PiecesOf(members[1..], ",")
  }

  lemma MembersSplit(members: seq<Member>)
    requires members != []
    ensures MembersText(members) == MemberText(members[0]) + if |members| == 1 then "}" else "," + MembersText(members[1..])
  {
    hide MemberText;
  }

  lemma {:induction false} PiecesPrint(members: seq<Member>, lead: string)
    requires members != []
    ensures Render(PiecesOf(members, lead)) == lead + MembersText(members)
  {
    hide Quote, IntText, Render, PiecesOf, MembersText, PieceOf, RenderPiece, ScalarText;
    var name, value := Quote(members[0].0, true), PieceOf(members[0].1);
    var more := PiecesOf(members[1..], ",");
    MembersSplit(members);
    PiecesSplit(members, lead);
    RenderTwo(Literal(lead + (name + ":")), value, more);
    ValuePrinted(members[0].1);
    LiteralPrinted(lead + (name + ":"));
    var tail := if |members| == 1 then "}" else "," + MembersText(members[1..]);
    if |members| == 1 {
      PiecesEnd();
      assert members[1..] == [];
      RenderBrace();
    } else {
      PiecesPrint(members[1..], ",");
    }
    Regroup(lead, name, ScalarText(members[0].1), tail);
  }

  lemma ValuePrinted(value: Scalar)
    ensures RenderPiece(PieceOf(value)) == ScalarText(value)
  {
    hide Quote, IntText;
  }

  lemma LiteralPrinted(text: string)
    ensures RenderPiece(Literal(text)) == text
  {
  }

  lemma Regroup(lead: string, name: string, value: string, tail: string)
    ensures (lead + (name + ":")) + (value + tail) == lead + ((name + (":" + value)) + tail)
  {
  }

  lemma PiecesSplit(members: seq<Member>, lead: string)
    requires members != []
    ensures PiecesOf(members, lead)
         == [Literal(lead + (Quote(members[0].0, true) + ":")), PieceOf(members[0].1)] + PiecesOf(members[1..], ",")
  {
    hide Quote;
  }

  lemma PiecesEnd()
    ensures PiecesOf([], ",") == [Literal("}")]
  {
  }

  lemma RenderTwo(head: Piece, value: Piece, more: seq<Piece>)
    ensures Render([head, value] + more) == RenderPiece(head) + (RenderPiece(value) + Render(more))
  {
    hide RenderPiece;
    assert ([head, value] + more)[1..] == [value] + more && ([value] + more)[1..] == more;
  }

  lemma RenderBrace()
    ensures Render([Literal("}")]) == "}"
  {
    assert [Literal("}")][1..] == [];
  }

  /** The name is plain. */
  ghost predicate AllPlain(name: string) {
    forall i :: 0 <= i < |name| ==> PlainChar(name[i])
  }

  /** `literal` is what the printer puts between a value and the next one, to name the next one. */
  ghost predicate Names(literal: string, lead: string, name: string) {
    AllPlain(name) && literal == lead + "\"" + name + "\":"
  }

  lemma PlainConcat(a: string, b: string)
    requires AllPlain(a) && AllPlain(b)
    ensures AllPlain(a + b)
  {
  }

  lemma SignaturePlain()
    ensures AllPlain("canonical_signature_records") && AllPlain("canonical_signature_sha256")
  {
    HalvesPlain();
    PlainConcat("canonical_sig", "nature_records");
    PlainConcat("canonical_sig", "nature_sha256");
    hide AllPlain;
    assert "canonical_sig" + "nature_records" == "canonical_signature_records";
    assert "canonical_sig" + "nature_sha256" == "canonical_signature_sha256";
  }

  lemma HalvesPlain()
    ensures AllPlain("canonical_sig") && AllPlain("nature_records") && AllPlain("nature_sha256")
  {
  }

  lemma FieldsPlain()
    ensures AllPlain("fid_added") && AllPlain("fid_attempted") && AllPlain("fid_excluded")
    ensures AllPlain("route_id") && AllPlain("status") && AllPlain("treatment_id")
  {
  }

  lemma RecordsName()
    ensures Names("{\"canonical_signature_records\":", "{", "canonical_signature_records")
  {
    SignaturePlain();
    hide AllPlain;
  }

  lemma DigestName()
    ensures Names(",\"canonical_signature_sha256\":", ",", "canonical_signature_sha256")
  {
    SignaturePlain();
    hide AllPlain;
  }

  lemma FidNames()
    ensures Names(",\"fid_added\":", ",", "fid_added")
    ensures Names(",\"fid_attempted\":", ",", "fid_attempted")
    ensures Names(",\"fid_excluded\":", ",", "fid_excluded")
  {
    FieldsPlain();
    hide AllPlain;
  }

  lemma OtherNames()
    ensures Names(",\"route_id\":", ",", "route_id")
    ensures Names(",\"status\":", ",", "status")
    ensures Names(",\"treatment_id\":", ",", "treatment_id")
  {
    FieldsPlain();
    hide AllPlain;
  }

  lemma PieceAt(members: seq<Member>, k: nat, lead: string, literal: string)
    requires k < |members| && Names(literal, lead, members[k].0)
    ensures PiecesOf(members[k..], lead) == [Literal(literal), PieceOf(members[k].1)] + PiecesOf(members[k + 1..], ",")
  {
    hide Quote;
    NameText(lead, members[k].0);
    assert members[k..][1..] == members[k + 1..];
    PiecesSplit(members[k..], lead);
  }

  lemma FourPieces(members: seq<Member>, k: nat, lead: string, a: string, b: string, c: string, d: string)
    requires k + 4 <= |members| && Names(a, lead, members[k].0) && Names(b, ",", members[k + 1].0)
    requires Names(c, ",", members[k + 2].0) && Names(d, ",", members[k + 3].0)
    ensures PiecesOf(members[k..], lead) ==
      [Literal(a), PieceOf(members[k].1), Literal(b), PieceOf(members[k + 1].1),
       Literal(c), PieceOf(members[k + 2].1), Literal(d), PieceOf(members[k + 3].1)] + PiecesOf(members[k + 4..], ",")
  {
    hide PiecesOf, Names, PieceOf;
    PieceAt(members, k, lead, a);
    PieceAt(members, k + 1, ",", b);
    PieceAt(members, k + 2, ",", c);
    PieceAt(members, k + 3, ",", d);
  }

  /** The printer's pieces are the members' names and values. */
  lemma PiecesAre(cell: SemanticCell)
    ensures Pieces(cell) == PiecesOf(MembersOf(cell), "{")
  {
    hide PiecesOf, Names;
    var members := MembersOf(cell);
    RecordsName();
    DigestName();
    FidNames();
    OtherNames();
    FourPieces(members, 0, "{", "{\"canonical_signature_records\":", ",\"canonical_signature_sha256\":", ",\"fid_added\":", ",\"fid_attempted\":");
    FourPieces(members, 4, ",", ",\"fid_excluded\":", ",\"route_id\":", ",\"status\":", ",\"treatment_id\":");
    PiecesEnd();
    assert members[8..] == [] && members[0..] == members;
  }

  /** Every field of a cell under its name. */
  function FieldsOf(cell: SemanticCell): Object {
    map["canonical_signature_records" := Amount(cell.signatureRecords),
        "canonical_signature_sha256" := Words(cell.signatureSha256),
        "fid_added" := Amount(cell.fidAdded),
        "fid_attempted" := Amount(cell.fidAttempted),
        "fid_excluded" := Amount(cell.fidExcluded),
        "route_id" := Words(cell.routeId),
        "status" := Words(cell.status),
        "treatment_id" := Words(cell.treatmentId)]
  }

  lemma ObjectStep(members: seq<Member>, k: nat)
    requires k < |members|
    ensures ObjectOf(members[..k + 1]) == ObjectOf(members[..k])[members[k].0 := members[k].1]
  {
    assert members[..k + 1][..k] == members[..k];
  }

  lemma FieldsByName(cell: SemanticCell)
    ensures ObjectOf(MembersOf(cell)) == FieldsOf(cell)
  {
    hide ObjectOf;
    var m := MembersOf(cell);
    NothingRead();
    assert m[..0] == [] && m[..8] == m;
    ObjectStep(m, 0);
    ObjectStep(m, 1);
    ObjectStep(m, 2);
    ObjectStep(m, 3);
    ObjectStep(m, 4);
    ObjectStep(m, 5);
    ObjectStep(m, 6);
    ObjectStep(m, 7);
  }

  lemma NothingRead()
    ensures ObjectOf([]) == map[]
  {
  }

  /** A printed cell reads back, and reading stops right behind it. */
  lemma CellReads(cell: SemanticCell, rest: string)
    ensures ReadObject(CellText(cell) + rest) == Some(Read(FieldsOf(cell), rest))
  {
    hide ReadMembers, Render, PiecesOf, MembersText, ObjectOf, FieldsOf;
    PiecesAre(cell);
    PiecesPrint(MembersOf(cell), "{");
    var text := CellText(cell) + rest;
    assert text[0] == '{' && text[1..] == MembersText(MembersOf(cell)) + rest;
    MembersRoundTrip(MembersOf(cell), rest);
    FieldsByName(cell);
  }

  function AllFields(cells: seq<SemanticCell>): (r: seq<Object>)
    ensures |r| == |cells|
  {
    seq(|cells|, i requires 0 <= i < |cells| => FieldsOf(cells[i]))
  }

  lemma {:induction false} MoreRead(cells: seq<SemanticCell>)
    ensures ReadMore(MoreCells(cells)) == Some(Read(AllFields(cells), ""))
  {
    hide CellText, ReadObject, FieldsOf;
    var text := MoreCells(cells);
    if cells == [] {
      assert text[1..] == "";
    } else {
      assert text[1..] == CellText(cells[0]) + MoreCells(cells[1..]);
      CellReads(cells[0], MoreCells(cells[1..]));
      MoreRead(cells[1..]);
      assert AllFields(cells) == [FieldsOf(cells[0])] + AllFields(cells[1..]);
    }
  }

  /** The digested text reads back as the cells, in order, each field under its own name. */
  lemma PayloadReads(cells: seq<SemanticCell>)
    ensures ReadArray(Payload(cells)) == Some(Read(AllFields(cells), ""))
  {
    hide CellText, MoreCells, ReadObject, FieldsOf, ReadMore;
    var text := Payload(cells);
    if cells == [] {
      assert text[2..] == "";
    } else {
      var behind := CellText(cells[0]) + MoreCells(cells[1..]);
      assert text[1..] == behind;
      CellTextOpens(cells[0], MoreCells(cells[1..]));
      assert text[1] == '{';
      CellReads(cells[0], MoreCells(cells[1..]));
      MoreRead(cells[1..]);
      assert AllFields(cells) == [FieldsOf(cells[0])] + AllFields(cells[1..]);
    }
  }
}
