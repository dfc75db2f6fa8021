# simple-odf table builder, markup converter and style registry in Dafny

This project models the core of simple-odf, a library that builds OpenDocument text files (OASIS OpenDocument 1.2). It also models the `OdfHelper` report-building class that sits on top of the library. There are four pieces:

- **Element containers.**
  - The document (`TextDocument`), tables (`Table`), rows (`TableRow`), cells (`TableCell`) and column definitions (`TableColDef`).
  - Their append, get, remove-at and clear operations.
  - Their serialisation to an abstract element tree. Empty tables and empty rows are suppressed.
  - Font declarations, with font families that contain a space put in quotes.
  - Tab stops, whose position is clamped at zero.
- **Content-named styles.** `TableCellStyle`, `TableColStyle` and `TableStyle` name themselves after their field values. `toXml` writes that name onto the parent element and registers a `style:style` entry in the document's automatic-styles table. It registers the entry only when no entry of that name exists. These are the properties elements of OASIS OpenDocument 1.2, Part 1: section 17.18 (`style:table-cell-properties`), section 17.16 (`style:table-column-properties`) and section 17.15 (`style:table-properties`).
- **The table builder** (`OdfHelper`):
  - a context record (`numCols`, `currentCol`, the multi-row span counter `multi`, and `lines`);
  - the transitions `beginTable`, `addHeadRow`, `addRow`, `addColumn` and `endTable`;
  - the twelve border presets `cst01`–`cst33` that `addColumn` chooses from.
- **The markup converter** (`OdfHelper.addHTML`): a left-to-right fold over open, text and close events. Its state is a tag stack, a pending-text buffer and the current list.

Everything has value semantics. The library's object references become positions:
- the current document part `cdp` is `DocParts.Part`, either the body or a cell given by table, row and cell index;
- the open table and row are indices held in `OdfHelper.Ctx`;
- the converter's current list is a position in the output.

The class-level defaults `Paragraph.defaultStyle`, `TableCellStyle.defaultBorder` and `TableCellStyle.defaultPadding` are the explicit record `Tree.Globals`, carried in the helper's state.

A style's name is the string fed to the MD5 digest, that is, an identity digest. So equal digest input gives an equal name, and that is the only property of the digest the model relies on. The source's thrown exceptions become `Result.Failure` with one `Error` constructor per cause. Its `console.log` warning becomes a returned flag.

Modules: `Wrappers`, `Assoc` (ordered maps; a JavaScript object or an attribute list), `Xml`, `Numbers`, `StyleRegistry`, `TableCellStyle`, `TableColStyle`, `TableStyle`, `TabStop`, `Tree` (the node and table datatypes), `Children`, `Table`, `TableRow`, `TableCell`, `TableColDef`, `Serialize`, `TextDocument`, `DocParts`, `TablePresets`, `Markup`, `OdfHelper`.

Behaviours of the code worth knowing:

- **Line breaks inside a paragraph.** Opening any tag flushes the pending text, including `br` (example/OdfHelper.js:366). So `<p>Body<br/>More</p>` gives two paragraphs, `"Body"` and `"\nMore"`, not one paragraph `"Body\nMore"`. This is `Markup.BreakSplitsParagraph`.
- **Relative table width.** `TableStyle` writes its relative width under `style:rel-column-width` (src/style/TableStyle.ts:109), and the model does the same.

## Model

| member | source | states |
|---|---|---|
| Assoc.Put | src/style/TableCellStyle.ts:38-40 | Assigning under a key sets that key and leaves every other key's lookup alone. An existing key keeps its place in the iteration order; a new key goes last. Keys stay distinct. |
| StyleRegistry.ExistsStyle | src/style/TableCellStyle.ts:98-112 | The scan over the automatic styles answers true exactly when some entry has a `style:name` equal to the name. |
| StyleRegistry.StyleElement | src/style/TableCellStyle.ts:122-129 | The created entry is a `style:style` element carrying the family and the name, with the properties element as its only child. |
| StyleRegistry.Register | src/style/TableCellStyle.ts:63-66 | Afterwards the name is present. The table is unchanged exactly when the name was already present; otherwise it grows by exactly the new entry at the end. Existing entries are never touched, and unique names stay unique. |
| StyleRegistry.Resolve | src/style/TableCellStyle.ts:58-67 | The parent always gets the name as `table:style-name`, and no other attribute changes. The table is extended as `Register` says. |
| StyleRegistry.RegisterIdempotent | src/style/TableCellStyle.ts:63-66 | A second registration under a name already present changes nothing, whatever entry it offers. |
| StyleRegistry.FirstWriteWins | src/style/TableCellStyle.ts:63-66 | The entry found under a name is the first one ever offered for that name. |
| StyleRegistry.RegisterKeepsLookups | src/style/TableCellStyle.ts:122-125 | Registering never changes what an already-present name resolves to. |
| TableCellStyle.New | src/style/TableCellStyle.ts:24-32 | A new style is aligned top. Its border and padding maps are copies of the current defaults: same keys in the same order, same values. |
| TableCellStyle.SetVerticalAlignment | src/style/TableCellStyle.ts:34-36 | Only the alignment changes. |
| TableCellStyle.AddBorder | src/style/TableCellStyle.ts:38-40 | Sets one direction and leaves every other direction, the padding and the alignment alone. A re-set direction keeps its position in the order. |
| TableCellStyle.ResetBorder | src/style/TableCellStyle.ts:42-44 | Empties the border map only. |
| TableCellStyle.AddPadding | src/style/TableCellStyle.ts:46-48 | Sets one padding direction and leaves all else alone. A re-set direction keeps its position. |
| TableCellStyle.ResetPadding | src/style/TableCellStyle.ts:50-52 | Empties the padding map only. |
| TableCellStyle.ToXml | src/style/TableCellStyle.ts:58-67 | The parent is named after the style's content. The table gains exactly one `table-cell` entry, with these properties, when that name is new, and is unchanged otherwise. |
| TableCellStyle.PropsListing | src/style/TableCellStyle.ts:128-144 | The properties element lists `style:vertical-align`, then one attribute per border entry and then one per padding entry, in insertion order. Key `all` gives the bare `fo:border`/`fo:padding`; key `k` gives `fo:border-k`/`fo:padding-k`. |
| TableCellStyle.FirstBorderDirectionShows | src/style/TableCellStyle.ts:131-137 | Two styles whose first border entries differ in direction emit different properties. |
| TableCellStyle.NameIgnoresDirections | src/style/TableCellStyle.ts:77-88 | The name depends on the alignment and the border and padding values only; the direction keys do not enter it. |
| TableCellStyle.DirectionCollision | src/style/TableCellStyle.ts:77-88 | A top border and a left border of the same value get the same name, although their properties differ. |
| TableCellStyle.ToXmlIdempotent | src/style/TableCellStyle.ts:63-66 | Resolving any equally-named style after a first resolution leaves the style table unchanged. |
| TableColStyle.New | src/style/TableColStyle.ts:19-23 | The default has no absolute width, relative width 0, and optimal width on. |
| TableColStyle.SetWidthString | src/style/TableColStyle.ts:25-28 | Sets the absolute width, clears optimal, and keeps the relative width. |
| TableColStyle.SetRelativeWidth | src/style/TableColStyle.ts:30-33 | Sets the relative width, clears optimal, and keeps the absolute width. |
| TableColStyle.SetUseOptimalWidth | src/style/TableColStyle.ts:35-40 | Sets the flag and resets both widths, whatever the flag is. |
| TableColStyle.OptimalForgets | src/style/TableColStyle.ts:35-40 | Afterwards no trace of earlier widths remains; turning optimal on gives back the default style. |
| TableColStyle.PropsAttrs | src/style/TableColStyle.ts:109-117 | `style:column-width` appears iff there is an absolute width, `style:rel-column-width` iff the relative width is non-zero, and `style:use-optimal-column-width` = `true` iff optimal is on. No other attribute appears. |
| TableColStyle.ToXml | src/style/TableColStyle.ts:43-50 | Names the parent. Registers a `table-column` entry exactly when the name is new. |
| TableColStyle.PropsRoundTrip | src/style/TableColStyle.ts:101-119 | The style can be read back from its emitted properties. |
| TableColStyle.PropsInjective | src/style/TableColStyle.ts:101-119 | Distinct styles emit distinct properties. |
| TableColStyle.NameCollision | src/style/TableColStyle.ts:60-67 | Absolute width `"1"` and relative width 10 feed the digest the same string, although their properties differ. |
| TableColStyle.ToXmlIdempotent | src/style/TableColStyle.ts:46-49 | Resolving an equally-named column style again leaves the style table unchanged. |
| TableStyle.New | src/style/TableStyle.ts:20-24 | The default is width `100%`, relative width 0, aligned to the margins. |
| TableStyle.SetWidthString | src/style/TableStyle.ts:26-28 | Changes only the absolute width. |
| TableStyle.SetRelativeWidth | src/style/TableStyle.ts:30-32 | Changes only the relative width. |
| TableStyle.SetAlignment | src/style/TableStyle.ts:34-36 | Changes only the alignment. |
| TableStyle.SettersCommute | src/style/TableStyle.ts:26-36 | Since each setter touches only its own field, any two of them commute. |
| TableStyle.PropsAttrs | src/style/TableStyle.ts:105-113 | `style:width` appears iff there is an absolute width, and `style:rel-column-width` iff the relative width is non-zero. `table:align` always appears, because an alignment value is never empty. No other attribute appears. |
| TableStyle.ToXml | src/style/TableStyle.ts:39-46 | Names the parent. Registers a `table` entry exactly when the name is new. |
| TableStyle.PropsRoundTrip | src/style/TableStyle.ts:97-115 | The style can be read back from its emitted properties. |
| TableStyle.PropsInjective | src/style/TableStyle.ts:97-115 | Distinct table styles emit distinct properties. |
| TableStyle.ToXmlIdempotent | src/style/TableStyle.ts:42-45 | Resolving an equally-named table style again leaves the style table unchanged. |
| TabStop.New | src/style/TabStop.ts:27-29 | The stored position is the given one clamped at zero. The type is the given one, `Left` when none is given. |
| TabStop.NewDefaultsToLeft | src/style/TabStop.ts:27 | A tab stop created without a type is a left tab stop. |
| TabStop.SetPosition | src/style/TabStop.ts:38-40 | Stores max(position, 0); the type is kept. |
| TabStop.SetType | src/style/TabStop.ts:58-60 | Changes only the type. |
| TabStop.SetGetRoundTrip | src/style/TabStop.ts:48-70 | A set followed by a get returns what was set, for a non-negative position and for any type. |
| TabStop.Element | src/style/TabStop.ts:79-87 | One `style:tab-stop` element, whose position ends in `cm`. A `style:type` attribute is present iff the type is not Left. |
| TabStop.ToXml | src/style/TabStop.ts:79-81 | Appends exactly that element to the parent's children and keeps the others. |
| TabStop.ElementRoundTrip | src/style/TabStop.ts:79-87 | The tab stop can be read back from its element. |
| Numbers.ParseNatToString | src/style/TabStop.ts:83 | The decimal rendering of a position loses nothing. |
| Numbers.ParseIntToString | src/style/TableColStyle.ts:64 | The decimal rendering of a relative width parses back to the same integer. |
| Numbers.IntToStringInjective | src/style/TableStyle.ts:60 | Distinct relative widths render differently. |
| Children.Append | src/text/Table.ts:35-39 | The child is added at the end and the others stay in place. |
| Children.Get | src/text/TableRow.ts:47-49 | Gives the child at a position, or nothing exactly when the position is out of range. |
| Children.RemoveAt | src/text/TableRow.ts:69-71 | Removes and returns exactly the child at an in-range position, keeping the order of the rest. Out of range, nothing changes. |
| Children.RemoveThenReinsert | src/text/Table.ts:72-74 | Putting a removed child back at its position restores the sequence. |
| Table.New | src/text/Table.ts:21-27 | A table for n columns has n fresh column definitions (none for negative n) and no rows. |
| Table.AddRow | src/text/Table.ts:35-39 | Appends one empty row at the end, returns its position, and grows the size by one; the column definitions are kept. |
| Table.RemoveRowAt | src/text/Table.ts:72-74 | Removes and returns that row, keeping the order of the rest. Out of range, it returns nothing and changes nothing. |
| Table.Clear | src/text/Table.ts:81-86 | The removal loop ends with no rows; the column definitions stay. |
| Table.RemoveAfterAdd | src/text/Table.ts:35-39 | Removing the row just added gives back the original table and that empty row. |
| TableRow.AddCell | src/text/TableRow.ts:32-36 | Appends exactly one cell, built by the cell constructor, at the end, and returns its position. Other positions are unchanged. |
| TableRow.RemoveCellAt | src/text/TableRow.ts:69-71 | Removes only that cell, or changes nothing when the position is out of range. |
| TableRow.Clear | src/text/TableRow.ts:78-83 | The row ends up empty. |
| TableRow.RemoveAfterAdd | src/text/TableRow.ts:32-36 | Removing the cell just added gives back the original row. |
| TableCell.New | src/text/TableCell.ts:23-38 | The value type defaults to `string`. A paragraph is kept as it is; a non-empty string becomes one paragraph in the default paragraph style; no content or `""` gives no child. The cell has a fresh style built from the current defaults. |
| TableCell.SetStyle | src/text/TableCell.ts:48-50 | Replaces the style and nothing else. |
| TableCell.SetGetStyle | src/text/TableCell.ts:42-50 | A get after a set returns the style that was set. |
| TableCell.Append | src/text/TableCell.ts:33-35 | Appends a child and keeps the type and the style. |
| TableColDef.New | src/text/TableColDef.ts:17-20 | A column definition owns a fresh column style in its optimal-width default. |
| TableColDef.SetStyle | src/text/TableColDef.ts:24-26 | What is set through the owned style is what `getStyle` returns. |
| TableColDef.ToXml | src/text/TableColDef.ts:28-33 | Exactly one `table:table-column` element, named after its column style, which is then registered. |
| Serialize.NodeToXml | src/text/Table.ts:99-102 | A table without rows emits nothing. Any other node emits exactly its element. |
| Serialize.TableToXml | src/text/Table.ts:99-110 | A table without rows emits nothing and leaves the style table alone. Otherwise it emits exactly `TableElement(t)`, whatever styles were registered before. `TableInOrder` spells out what that element holds. |
| Serialize.ColDefsToXml | src/text/Table.ts:105-107 | Element `i` is the `table:table-column` element naming the style of definition `i`, one per definition. |
| Serialize.RowsToXml | src/text/Table.ts:109 | The emitted elements are those of the rows that have cells, in order (`RowElementAt` states it index by index). |
| Serialize.RowToXml | src/text/TableRow.ts:96-103 | A row without cells emits nothing and leaves the style table alone. Otherwise it emits exactly its row element. |
| Serialize.CellsToXml | src/text/TableRow.ts:102 | Element `i` is the element of cell `i`, one per cell. |
| Serialize.CellToXml | src/text/TableCell.ts:53-60 | One `table:table-cell` element carrying the value type and then the style name, and holding the elements of the cell's content. The style ends up registered. |
| Serialize.NodesToXml | src/TextDocument.ts:203 | The emitted elements are those of the nodes that write one, in order. The style table is only extended, and its names stay unique. |
| Serialize.NodesInOrder | src/TextDocument.ts:203 | Element `i` of a node sequence is the element of the `i`-th node that is not a rowless table. |
| Serialize.TableInOrder | src/text/Table.ts:103-109 | A table element holds one column element per definition, each naming its definition's style, and then one row element per row with cells, in row order. |
| Serialize.RowInOrder | src/text/TableRow.ts:100-102 | A row element holds one cell element per cell, in order. Each cell element holds the elements of that cell's content. |
| Serialize.NodeElementAt | src/TextDocument.ts:203 | Element `i` of a node sequence belongs to the `i`-th written node. |
| Serialize.RowElementAt | src/text/Table.ts:109 | Row element `i` belongs to the `i`-th row that has cells. |
| Serialize.CellElementAt | src/text/TableRow.ts:102 | Cell element `i` belongs to cell `i`. |
| TextDocument.New | src/TextDocument.ts:33-38 | A new document has no fonts and no children. |
| TextDocument.DeclareFont | src/TextDocument.ts:65-67 | Appends the font at the end, with no de-duplication; the children are unchanged. |
| TextDocument.AddHeading | src/TextDocument.ts:78-83 | Appends one heading at the end and returns its position. The level is 1 when none is given. |
| TextDocument.HeadingDefaultsToLevelOne | src/TextDocument.ts:78 | A heading added without a level has level 1. |
| TextDocument.AddList | src/TextDocument.ts:91-96 | Appends one empty list at the end and returns its position. |
| TextDocument.AddTable | src/TextDocument.ts:105-110 | Appends one table with that many column definitions at the end. |
| TextDocument.AddParagraph | src/TextDocument.ts:120-125 | Appends one paragraph, in the default paragraph style, at the end. |
| TextDocument.FamilyRoundTrip | src/TextDocument.ts:245 | A family is quoted exactly when it contains a space, and unquoting gives it back. |
| TextDocument.FontFaceElements | src/TextDocument.ts:233-249 | No fonts give no element. Otherwise one `office:font-face-decls` element holds one font face per font, in declaration order. |
| TextDocument.FontFaceRoundTrip | src/TextDocument.ts:241-248 | Every declared font, with its family, reads back from its font-face element. |
| TextDocument.ToXml | src/TextDocument.ts:187-204 | The root carries the namespaces, then the mimetype and the version. Its children are the metadata, then the font declarations when there are fonts, then `office:body` > `office:text` holding one element per written child, in insertion order. |
| DocParts.AppendAt | example/OdfHelper.js:86 | Appending to the current part adds the node at its end. Every table, row and cell position stays valid. The fonts never change. Inside a cell, every other top-level node, row and cell, the column definitions, and the cell's own style and value type are unchanged. |
| TablePresets.RowKindOf | example/OdfHelper.js:267-274 | Row type: top iff `multi` < 0, middle iff `multi` > 1, bottom iff `multi` = 1, single iff `multi` = 0. |
| TablePresets.ColKindOf | example/OdfHelper.js:275-280 | Column type: first iff the column is 1 (even in a one-column table), last iff it is not 1 and equals `numCols`, middle otherwise. |
| TablePresets.EdgesRule | example/OdfHelper.js:447-506 | The twelve tabulated presets follow one rule. Top is thick on single and top rows; bottom is thick on single and bottom rows; left is thick on the first column; right is thick on the last column and thin elsewhere; all other edges are `none`. |
| TablePresets.PresetRule | example/OdfHelper.js:444-506 | The preset built on the setup-time base style has exactly those four edges. Its alignment, padding and any `all` border are the base's. |
| Markup.HeadingLevel | example/OdfHelper.js:309-315 | A level is defined exactly for h1…h5. |
| Markup.PutText | example/OdfHelper.js:348-357 | An empty string is ignored; otherwise it is appended to the buffer. |
| Markup.Flush | example/OdfHelper.js:319-347 | Fails exactly when the top tag is `li` and no list is open. An empty top tag name changes nothing. A top tag starting with `h` appends a heading of the buffered text at that tag's level, and `p` appends a paragraph in the current style. `li` appends the text as an item of the current list. Any other tag, or an empty stack, drops the text and leaves the output alone. The buffer ends empty, and the stack and the current list are kept. |
| Markup.Step | example/OdfHelper.js:359-381 | An open tag opens a list for `ul`/`ol`, flushes, and pushes the tag; it fails exactly when that flush does. Text is added to the buffer. A closing `br` adds a line break and pops. Any other closing tag flushes and pops, and fails exactly when the flush does. The earlier output is kept. |
| Markup.Opened | example/OdfHelper.js:359-365 | `ul` and `ol` append one empty list and make it the current list. Other tags change nothing. |
| Markup.Run | example/OdfHelper.js:383-384 | The whole fold keeps the same two invariants. |
| Markup.Convert | example/OdfHelper.js:303-384 | The output extends the part's children. A non-empty string not starting with `<` gives exactly one paragraph holding it. |
| Markup.RunAppend | example/OdfHelper.js:358-384 | Folding over a concatenation is folding over the first part and then over the rest; an error stops the fold. |
| Markup.SingleElement | example/OdfHelper.js:319-347 | `<t>text</t>` gives a heading (any tag starting with `h`), a paragraph (`p`), an item of the current list (`li`; an error with no list), or nothing (any other tag). |
| Markup.RunParagraphs | example/OdfHelper.js:334-338 | A run of `<p>` elements gives the reference sequence of paragraphs, one per text, in order. |
| Markup.RunItems | example/OdfHelper.js:339-341 | A run of `<li>` elements inside a list adds the items to that list, in order. |
| Markup.ListConversion | example/OdfHelper.js:362-368 | `<ul>` or `<ol>` holding items gives exactly one list with those items. |
| Markup.BreakSplitsParagraph | example/OdfHelper.js:366-380 | `<p>a<br/>b</p>` gives two paragraphs, `a` and `"\n" + b`. |
| Markup.ListPrecedesPendingText | example/OdfHelper.js:362-367 | Opening a list inside a paragraph appends the list first and then flushes the pending text after it. |
| Markup.PlainTextIsOneParagraph | example/OdfHelper.js:304-308 | Plain text, whatever events come with it, becomes one paragraph holding the whole string. |
| OdfHelper.NewHelper | example/OdfHelper.js:60-72 | Two fonts are declared: Ubuntu Mono/monospace and Arial/Arial. The presets are built on the defaults in force. The default padding becomes exactly 1.5mm left, then 1.5mm right. Paragraphs default to the standard style, and no table is open. |
| OdfHelper.AddParagraph | example/OdfHelper.js:80-88 | Appends one paragraph to the current part, in the given style or else the default one. Nothing else about the helper changes. The document changes nowhere else: not its fonts, and for a cell no other node, row or cell. |
| OdfHelper.AddCodeParagraph | example/OdfHelper.js:94-100 | Appends one paragraph in the code style to the current part. The document changes nowhere else. |
| OdfHelper.PadMap | example/OdfHelper.js:127-133 | Each padding argument that is given, and only those, appears under its direction. |
| OdfHelper.PadMapOrder | example/OdfHelper.js:127-133 | The map lists the given arguments in the order all, left, top, right, bottom, one entry each, and nothing else. |
| OdfHelper.BeginTable | example/OdfHelper.js:122-146 | Warns exactly when a table is already open. Appends a new table to the document body. Installs a fresh context (`currentCol` 1, `multi` 0), the given padding as the default, and the table paragraph style. The current part is unchanged. `lines` defaults to true and `padding` to `1pt`. |
| OdfHelper.BeginTableDefaults | example/OdfHelper.js:115-122 | Called with the column count alone, `beginTable` turns lines on and sets the default padding to exactly `1pt` on all sides. |
| OdfHelper.WithWidths | example/OdfHelper.js:176-181 | Only the first min(widths, columns) column definitions get their absolute width set, and that clears their optimal flag. The rest are unchanged. |
| OdfHelper.WithRelWidths | example/OdfHelper.js:159-163 | The same for relative widths. |
| OdfHelper.SetTableColWidths | example/OdfHelper.js:172-182 | Fails with no table open. Otherwise the open table's column definitions become as `WithWidths` says. The table's rows, every other top-level node, the fonts and the presets are unchanged. |
| OdfHelper.SetTableColWidthsRel | example/OdfHelper.js:154-164 | Fails with no table open. Otherwise the open table's column definitions become as `WithRelWidths` says. The table's rows, every other top-level node, the fonts and the presets are unchanged. |
| OdfHelper.NextMulti | example/OdfHelper.js:227-234 | A span argument N ≠ 0 sets the counter to −N. Otherwise a non-zero counter becomes \|counter\| − 1 and zero stays zero. |
| OdfHelper.StartRow | example/OdfHelper.js:224-226 | Appends exactly one empty row to the open table, makes it the current row, resets the column to 0, and sets the row paragraph style. The table's other rows and column definitions, every other top-level node and the fonts are unchanged. |
| OdfHelper.AddColumn | example/OdfHelper.js:252-285 | Fails with no table open, or when a cell is due but no row was started. Always advances the column counter. Past `numCols` nothing else changes. Otherwise it appends one string-typed cell with the chosen style to the current row and makes it the current part. No other row, top-level node or font changes. |
| OdfHelper.AddCell | example/OdfHelper.js:259-283 | The new cell is appended at the end of the current row and becomes the current part. No other row, top-level node or font changes. |
| OdfHelper.CellStyleRule | example/OdfHelper.js:261-282 | With lines, a new cell's four edges follow the row and column type of `multi` and the column number, and its padding is the setup-time one. Without lines, the cell keeps the border and padding of the defaults in force. |
| OdfHelper.TablePaddingReachesCells | example/OdfHelper.js:127-133 | The padding given to `beginTable` reaches the cells only when lines are off. With lines on, cells carry the padding of the presets, fixed at construction. |
| OdfHelper.AddHeadRow | example/OdfHelper.js:190-209 | Fails exactly when no table is open. Otherwise it sets the header paragraph style and resets the span counter to 0. `data` defaults to no strings. |
| OdfHelper.AddRow | example/OdfHelper.js:219-245 | Fails exactly when no table is open. Otherwise it sets the table paragraph style and moves the span counter as `NextMulti` says. `data` defaults to no strings and `multi` to 0. |
| OdfHelper.HeadRowLayout | example/OdfHelper.js:199-208 | With at least one column, exactly one row is appended to the open table, and the table's earlier rows, its column definitions, every other top-level node, the fonts and the presets are unchanged. A header row of k strings has max(1, min(k, numCols)) cells. Their contents follow the reference layout: one paragraph per string, with the surplus strings in the last cell. Every cell is a string cell. With lines on, cell j has the preset style for a single row and the column type of column j; with lines off, the border and padding of the defaults in force. The last cell is the current part, and the column counter ends at the number of strings (1 for none). |
| OdfHelper.RowLayout | example/OdfHelper.js:235-244 | The same for a body row, in the table paragraph style, with the row type of the span counter `NextMulti` gives. |
| OdfHelper.AddRowBorders | example/OdfHelper.js:227-244 | With lines on, the appended row's cells carry the preset borders for the row type of the new span counter. The earlier rows, the open table, its column count and the presets are kept. |
| OdfHelper.SpanOfThree | example/OdfHelper.js:227-274 | With lines on, `addRow(a, 3)` and then two plain `addRow` calls give rows with top, middle and bottom borders, in that order. |
| OdfHelper.FillRest | example/OdfHelper.js:237-240 | Each `addColumn(); addParagraph(s)` keeps the row equal to the reference layout of the strings seen so far, with each cell styled by its column. Nothing outside the row changes. |
| OdfHelper.FillFresh | example/OdfHelper.js:235-244 | Filling a fresh row gives the reference layout, or one empty cell when there is no data, in string cells styled by their columns. Nothing outside the row changes. |
| OdfHelper.FillStep | example/OdfHelper.js:237-240 | One column step keeps the row at its reference layout and changes nothing outside it. |
| OdfHelper.FillNewCell | example/OdfHelper.js:256-260 | While columns remain, a step adds a cell holding the string. |
| OdfHelper.FillLastCell | example/OdfHelper.js:256-258 | Past the last column, a step adds the string as one more paragraph in the last cell. |
| OdfHelper.RowNeverFails | example/OdfHelper.js:235-244 | Once a row is open, filling it never fails, and it keeps the table, row, span counter and paragraph style. |
| OdfHelper.ColumnsNeverFail | example/OdfHelper.js:237-240 | Any number of column steps on an open row succeeds and keeps the rest of the context. |
| OdfHelper.PlainRowsCount | example/OdfHelper.js:231-234 | k plain rows never fail and move the span counter k steps down. |
| OdfHelper.CountDown | example/OdfHelper.js:233 | From a non-negative counter, k plain rows give max(counter − k, 0). |
| OdfHelper.SpanCountsDown | example/OdfHelper.js:230-233 | After a span of N, k ≥ 1 plain rows leave max(N − k, 0). |
| OdfHelper.SpanRowKinds | example/OdfHelper.js:267-274 | A span of N gives row types top, then N − 2 middle, then bottom, then single. For N = 1 it is top, then single. |
| OdfHelper.EndTable | example/OdfHelper.js:291-295 | Closes the context, returns the current part to the body and restores the standard paragraph style. The document is unchanged. |
| OdfHelper.AddHtml | example/OdfHelper.js:297-385 | Succeeds exactly when the conversion does. The current part's children become the conversion's output. The part, the context, the defaults and the presets are kept, and the document changes nowhere else. |

## Left out

- **The MD5 digest.** A style name is the digest's input string. Collision resistance cannot be stated, so only "equal input gives equal name" is relied on.
- **DOM and file output.** The xmldom DOM, `XMLSerializer`, `TextDocument.toString`, `saveFlat`, `saveFlatPretty` and `prettifyXml` are file and DOM I/O or cosmetic formatting. Output is the abstract `Xml` element datatype.
- **The metadata element.** `Meta.toXml` comes from a class that is not part of this model; `TextDocument.ToXml` takes its elements as a parameter.
- **HTML tokenising.** htmlparser2's tokenising and entity decoding are left out. `Markup.Convert` takes the event sequence as a parameter, and that includes the empty sequence for an empty string.
- **Images.** `addImageData` and `getImageSizeSync` involve base64 buffers, an image-size library and floating-point arithmetic.
- **Number formatting.** Relative widths are integers. `Numbers` gives their decimal rendering, with no exponent or fraction forms.
- **Tab stop positions.** These are natural numbers rather than floating-point values.
- **Console output.** `console.log` is left out. The one warning that matters, in `beginTable`, is the returned flag.
- **The helper's `addHeading`** (example/OdfHelper.js:107-109). Whether a cell part has `addHeading` depends on `OdfElement`, which is not part of this model.
- **Exceptions.**
  - A thrown exception is a `Failure` that discards the partial state.
  - In `addColumn` the source increments `currentCol` before it throws for a missing row. The model does not keep that increment.
  - A failing `addHTML` keeps the nodes appended before the error; the model does not.
- **`Paragraph`, `Heading` and `List`.** These classes are not part of this model. They are the abstract nodes `Tree.Paragraph`, `Tree.Heading` and `Tree.ListNode`. `new Paragraph(text)` is taken to use the current `Paragraph.defaultStyle`. A heading with an undefined level (a tag such as `hr`) has level `None`.
- **The leaf elements.** The `Paragraph`, `Heading` and `List` classes are not part of this model. `Serialize.LeafElement` gives their elements the OpenDocument shape (`text:p`, `text:h` with `text:outline-level`, `text:list` > `text:list-item` > `text:p`), so their attributes are not taken from their source.
- **The place of the automatic styles.** The `office:automatic-styles` element is found or created by `StyleHelper.getAutomaticStylesElement`, which is not part of this model. `TextDocument.ToXml` returns the style table beside the document instead, so where that element goes among the root's children is not stated.
- **`Stack`.** This class is not part of this model. Popping an empty stack is taken to leave it empty.
- **The `ValueType` mapping.** `ValueType.ts` is transcribed only as the value names that `toXml` writes.
- **Declarations with no behaviour.** The interface files, the attribute and element name enumerations and `index.ts` are used only for their constant names.
- OdfHelper.AddColumns: its contract states only that the helper stays valid. `FillRest` and `ColumnsNeverFail` state what it computes.
- OdfHelper.AddHeadRow: its contract leaves the resulting row out. `HeadRowLayout` states it.
- OdfHelper.AddRow: its contract leaves the resulting row out. `RowLayout` states it.
- OdfHelper.RowLayout and OdfHelper.HeadRowLayout: stated only for a table of at least one column. With none, `addColumn` never adds a cell and the strings go to the current part; the model computes this but states nothing about it.
