/** The document tree: the node kinds a text document, a table cell or a list
    can hold. Paragraph, heading and list are reduced to the content the
    modelled code gives them; a table holds column definitions and rows,
    a row holds cells, and a cell holds nodes again. */
module Tree {
  import opened Wrappers
  import TableCellStyle
  import TableColStyle

  /** `ValueType`, rendered as the `office:value-type` value. */
  datatype ValueType = Float | Time | Date | Percentage | Currency | Boolean | StringValue

  function ValueTypeName(v: ValueType): string {
    match v
    case Float => "float"
    case Time => "time"
    case Date => "date"
    case Percentage => "percentage"
    case Currency => "currency"
    case Boolean => "boolean"
    case StringValue => "string"
  }

  /** The paragraph styles a paragraph can be created with: none, or one of
      the four the table builder sets up (standard text, table body, table
      header, code). */
  datatype ParaStyle = Unstyled | Standard | TableBody | TableHeader | Code

  /** The values of the three class-level defaults the modelled code reads
      when it constructs a paragraph or a cell style. */
  datatype Globals = Globals(
    defaultBorder: TableCellStyle.DirMap,   // `TableCellStyle.defaultBorder`
    defaultPadding: TableCellStyle.DirMap,  // `TableCellStyle.defaultPadding`
    paraStyle: ParaStyle)                   // `Paragraph.defaultStyle`

  datatype Node =
    | Paragraph(text: string, style: ParaStyle)
    | Heading(text: string, level: Option<int>)   // `None`: an undefined level
    | ListNode(items: seq<string>)
    | TableNode(table: Table)

  datatype Table = Table(colDefs: seq<ColDef>, rows: seq<Row>)

  datatype ColDef = ColDef(style: TableColStyle.ColStyle)

  datatype Row = Row(cells: seq<Cell>)

  datatype Cell = Cell(valueType: ValueType, style: TableCellStyle.CellStyle, content: seq<Node>)
}
