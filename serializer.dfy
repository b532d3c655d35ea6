/** The notebook file format: a UTF-8 JSON text `{"cells": [{kind, value, languageId}, ...]}`.
    Reading a file turns it back into cells; an empty file is an empty notebook, and a file
    that cannot be read as such a list becomes a notebook of one placeholder cell. */
module Serializer {
  import opened Notebook

  newtype byte = x: int | 0 <= x < 256

  /** The JSON values `JSON.parse` can produce (numbers restricted to integers). */
  datatype Json =
    | Null
    | Bool(b: bool)
    | Num(n: int)
    | Str(s: string)
    | Arr(items: seq<Json>)
    | Obj(fields: map<string, Json>)

  /** The host functions the serializer calls, taken as given: `TextEncoder.encode`,
      `TextDecoder.decode`, `JSON.parse` (`None` when it throws) and `JSON.stringify`. */
  datatype Runtime = Runtime(
    encode: string -> seq<byte>,
    decode: seq<byte> -> string,
    parse: string -> Option<Json>,
    stringify: Json -> string)

  /** The numbers the editor gives the two cell kinds. */
  function KindCode(kind: CellKind): (code: int)
    ensures code == 1 || code == 2
    ensures (code == 1) <==> kind == Markup
  {
    match kind
    case Markup => 1
    case Code => 2
  }

  /** The cell kind a number stands for, if any. */
  function KindFromCode(code: int): (kind: Option<CellKind>)
    ensures kind.Some? <==> code == 1 || code == 2
  {
    if code == 1 then Some(Markup)
    else if code == 2 then Some(Code)
    else None
  }

  /** The kind numbers and the kinds correspond one to one. */
  lemma KindCodeInverse(kind: CellKind, code: int)
    ensures KindFromCode(KindCode(kind)) == Some(kind)
    ensures KindFromCode(code) == Some(kind) <==> KindCode(kind) == code
  {
  }

  /** `obj[name]` where it is defined: a field of an object. Reading a field of `null`
      throws, and a missing field is `undefined`; both end the read. */
  function Field(j: Json, name: string): (r: Option<Json>)
    ensures r.Some? <==> j.Obj? && name in j.fields
    ensures r.Some? ==> r.value == j.fields[name]
  {
    if j.Obj? && name in j.fields then Some(j.fields[name]) else None
  }

  /** `new NotebookCellData(cell.kind, cell.value, cell.languageId)` on one parsed entry:
      the kind must be one of the kind numbers and the value and language strings, or the
      constructor throws. Other fields of the entry are ignored. */
  function CellFromJson(j: Json): (r: Option<Cell>)
    ensures r.Some? ==>
      && Field(j, "kind") == Some(Num(KindCode(r.value.kind)))
      && Field(j, "value") == Some(Str(r.value.value))
      && Field(j, "languageId") == Some(Str(r.value.languageId))
  {
    var kind, value, languageId := Field(j, "kind"), Field(j, "value"), Field(j, "languageId");
    if && kind.Some? && kind.value.Num? && KindFromCode(kind.value.n).Some?
       && value.Some? && value.value.Str?
       && languageId.Some? && languageId.value.Str?
    then Some(Cell(KindFromCode(kind.value.n).value, value.value.s, languageId.value.s))
    else None
  }

  /** The object `{kind, value, languageId}` that serialising writes for a cell; reading it
      back gives the cell. */
  function CellToJson(cell: Cell): (j: Json)
    ensures CellFromJson(j) == Some(cell)
  {
    Obj(map["kind" := Num(KindCode(cell.kind)), "value" := Str(cell.value),
            "languageId" := Str(cell.languageId)])
  }

  /** A parsed entry reads as a cell exactly when it carries that cell's kind number, value
      and language, whatever else it holds. */
  lemma CellFromJsonIff(j: Json, cell: Cell)
    ensures CellFromJson(j) == Some(cell) <==>
      && Field(j, "kind") == Some(Num(KindCode(cell.kind)))
      && Field(j, "value") == Some(Str(cell.value))
      && Field(j, "languageId") == Some(Str(cell.languageId))
  {
    KindCodeInverse(cell.kind, KindCode(cell.kind));
    if Field(j, "kind").Some? && Field(j, "kind").value.Num? {
      KindCodeInverse(cell.kind, Field(j, "kind").value.n);
    }
  }

  /** `items.map(cell => new NotebookCellData(...))`: all entries read as cells, in order,
      or the first that does not throws and no cell at all comes out. */
  function DecodeCells(items: seq<Json>): (r: Option<seq<Cell>>)
    ensures r.Some? <==> forall i | 0 <= i < |items| :: CellFromJson(items[i]).Some?
    ensures r.Some? ==>
      |r.value| == |items| &&
      forall i | 0 <= i < |items| :: CellFromJson(items[i]) == Some(r.value[i])
  {
    if |items| == 0 then Some([])
    else
      match (CellFromJson(items[0]), DecodeCells(items[1..]))
      case (Some(cell), Some(rest)) => Some([cell] + rest)
      case _ => None
  }

  /** `json.cells.map(...)`: the parsed value must be an object whose `cells` field is an
      array; anything else throws. */
  function CellsOf(json: Json): (r: Option<seq<Cell>>)
    ensures r.Some? ==> Field(json, "cells").Some? && Field(json, "cells").value.Arr?
    ensures r.Some? ==> DecodeCells(Field(json, "cells").value.items) == r
  {
    match Field(json, "cells")
    case Some(Arr(items)) => DecodeCells(items)
    case _ => None
  }

  /** The one cell a file that cannot be read turns into. */
  const Placeholder: Cell := Cell(Markup, "# Invalid or empty notebook", "markdown")

  /** `deserializeNotebook`: no bytes give no cells; otherwise the text is decoded and
      parsed, and any failure from the parse to the last cell gives the placeholder. */
  function Deserialize(rt: Runtime, content: seq<byte>): (cells: seq<Cell>)
    ensures |content| == 0 ==> cells == []
    ensures |content| > 0 && cells != [Placeholder] ==>
      exists json :: rt.parse(rt.decode(content)) == Some(json) && CellsOf(json) == Some(cells)
    ensures (|content| > 0 && rt.parse(rt.decode(content)).Some? &&
             CellsOf(rt.parse(rt.decode(content)).value).Some?) ==>
      cells == CellsOf(rt.parse(rt.decode(content)).value).value
    ensures (|content| > 0 && (rt.parse(rt.decode(content)).None? ||
             CellsOf(rt.parse(rt.decode(content)).value).None?)) ==>
      cells == [Placeholder]
  {
    if |content| == 0 then []
    else
      match rt.parse(rt.decode(content))
      case Some(json) =>
        (match CellsOf(json)
         case Some(cells) => cells
         case None => [Placeholder])
      case None => [Placeholder]
  }

  /** The value `{cells: [...]}` that serialising writes: one entry per cell, in order, each
      reading back as that cell. */
  function NotebookToJson(cells: seq<Cell>): (j: Json)
    ensures Field(j, "cells").Some? && Field(j, "cells").value.Arr?
    ensures var items := Field(j, "cells").value.items;
      |items| == |cells| && forall i | 0 <= i < |cells| :: CellFromJson(items[i]) == Some(cells[i])
  {
    Obj(map["cells" := Arr(seq(|cells|, i requires 0 <= i < |cells| => CellToJson(cells[i])))])
  }

  /** `serializeNotebook`: the bytes of the JSON text of `{cells: [...]}`. */
  function Serialize(rt: Runtime, cells: seq<Cell>): seq<byte> {
    rt.encode(rt.stringify(NotebookToJson(cells)))
  }

  /** The serialised value lists the cells back, in order. */
  lemma NotebookToJsonCells(cells: seq<Cell>)
    ensures CellsOf(NotebookToJson(cells)) == Some(cells)
  {
    var items := Field(NotebookToJson(cells), "cells").value.items;
    assert Field(NotebookToJson(cells), "cells") == Some(Arr(items));
    assert DecodeCells(items).Some?;
    var r := DecodeCells(items).value;
    assert |r| == |cells|;
    forall i | 0 <= i < |cells| ensures r[i] == cells[i] {
      assert CellFromJson(items[i]) == Some(r[i]);
    }
    assert r == cells;
    assert CellsOf(NotebookToJson(cells)) == DecodeCells(items);
  }

  /** What the round trip needs of the host, and no more: decoding inverts encoding on a text
      that does not start with a byte order mark (`TextDecoder` strips a leading U+FEFF by
      default), an object is written as a text starting with `{`, parsing gives back the value
      written for a list of cells (its numbers are only the kind numbers), and a non-empty text
      encodes to some bytes. */
  ghost predicate Faithful(rt: Runtime) {
    && (forall s: string :: (s == [] || s[0] != '\U{FEFF}') ==> rt.decode(rt.encode(s)) == s)
    && (forall fields: map<string, Json> ::
          rt.stringify(Obj(fields)) != [] && rt.stringify(Obj(fields))[0] == '{')
    && (forall cells: seq<Cell> ::
          rt.parse(rt.stringify(NotebookToJson(cells))) == Some(NotebookToJson(cells)))
    && (forall s: string :: s != [] ==> rt.encode(s) != [])
  }

  /** Saving a notebook and reading the file back gives the same cells. */
  lemma RoundTrip(rt: Runtime, cells: seq<Cell>)
    requires Faithful(rt)
    ensures Deserialize(rt, Serialize(rt, cells)) == cells
  {
    var j := NotebookToJson(cells);
    var text := rt.stringify(j);
    assert text != [] && text[0] == '{';
    assert rt.decode(rt.encode(text)) == text;
    assert |Serialize(rt, cells)| > 0;
    assert rt.parse(rt.decode(Serialize(rt, cells))) == Some(j);
    NotebookToJsonCells(cells);
  }

  /** Reading gives no cells exactly for an empty file and for a file that lists no cells. */
  lemma DeserializeEmptyIff(rt: Runtime, content: seq<byte>)
    ensures Deserialize(rt, content) == [] <==>
      |content| == 0 ||
      exists json :: rt.parse(rt.decode(content)) == Some(json) && Field(json, "cells") == Some(Arr([]))
  {
    if |content| > 0 && Deserialize(rt, content) == [] {
      var json := rt.parse(rt.decode(content)).value;
      var items := Field(json, "cells").value.items;
      assert |items| == 0;
      assert Field(json, "cells") == Some(Arr([]));
    }
  }

  /** One entry that does not read as a cell discards the whole list: the file reads as the
      placeholder. */
  lemma OneBadEntry(rt: Runtime, content: seq<byte>, items: seq<Json>, i: nat)
    requires |content| > 0
    requires rt.parse(rt.decode(content)).Some?
    requires Field(rt.parse(rt.decode(content)).value, "cells") == Some(Arr(items))
    requires i < |items| && CellFromJson(items[i]).None?
    ensures Deserialize(rt, content) == [Placeholder]
  {
  }

  /** A file whose text does not parse, or parses to something without a `cells` array,
      reads as the placeholder. */
  lemma UnreadableFile(rt: Runtime, content: seq<byte>)
    requires |content| > 0
    requires rt.parse(rt.decode(content)).None? ||
      !(Field(rt.parse(rt.decode(content)).value, "cells").Some? &&
        Field(rt.parse(rt.decode(content)).value, "cells").value.Arr?)
    ensures Deserialize(rt, content) == [Placeholder]
  {
  }
}
