# A Dafny model of the core of `com.anode.tool`

This project models the core of the `com.anode.tool` Java library and
proves properties of that model. The core is:

- the string helpers of `StringUtils`, which count and find characters and escape and unescape reserved characters;
- the document-path tokenizer (`Parser` and `Token`), which turns paths such as `$.a.b[2].c[k=v].d[]` into tokens;
- the tree node `graph.Node`;
- construction and validation of `XDocument`;
- the EPL2 command text built by the Zebra label printer `EPL2Printer`;
- the conversion of dotted properties into nested maps in `TemplateEngine.loopConvert`;
- the field rows of `EventFlattener`.

One Dafny module stands for each Java file:

| Dafny file | module | Java source |
|---|---|---|
| `wrappers.dfy` | `Wrappers` | `Option`, `Result` and `Outcome`: a null, and a call that returns or throws |
| `java_lang.dfy` | `JavaLang` | the parts of `java.lang` and `java.util` the core relies on |
| `string_utils.dfy` | `StringUtils` | `StringUtils.java` |
| `token.dfy` | `Tokens` | `Token.java` and the three `ArrayToken` constructors the parser calls |
| `parser.dfy` | `Parser` | `Parser.java` |
| `node.dfy` | `Graph` | `Node.java` |
| `xdocument.dfy` | `Documents` | `XDocument.java` |
| `epl2_printer.dfy` | `Zebra` | `EPL2Printer.java` |
| `template_engine.dfy` | `Engine` | `TemplateEngine.java` (`loopConvert`) |
| `event_flattener.dfy` | `Events` | `EventFlattener.java` |

The `java.lang` and `java.util` parts in `JavaLang` are:

- `String.trim`, `indexOf` and `lastIndexOf`;
- `String.split` on a one-character pattern, which drops trailing empty pieces;
- `List.indexOf`;
- `Integer.toString` and `Integer.parseInt`;
- 32-bit wrap-around.

The model keeps the form of the Java code.

- **Loops are Dafny loops.**
  - Each loop is a `method` with a `while` or `for` loop.
  - Each such method is proved equal to a specification function.
  - The properties the code promises are proved about that function as lemmas.
- **Objects whose fields change are classes.**
  - `Node`, `XDocument`, the XDocument statics (`Registry`), `EPL2Printer` and `EventFlattener` are classes with `modifies` frames.
  - The output list of `EventFlattener` is a class too.
- **Exceptions are explicit.** An exception is a `Failure` or `Fail` value that names the Java exception.
- **Java `int` overflow is explicit.** The `int` arithmetic that can overflow, the running y position of the printer, wraps explicitly.

The printer's label lines are written over a `Layout`. A layout pairs a line format with a start position and an increment. The printer's own layout is `Printer.LabelLayout()`, whose line format is the EPL2 `A` command at `xStartPosition`.

## Model

| member | source | states |
|---|---|---|
| StringUtils.PositionsSpec | src/main/java/com/anode/tool/StringUtils.java:13-89 | The reference for both searches lists exactly the indices holding c, in strictly increasing order. |
| StringUtils.GetCount | src/main/java/com/anode/tool/StringUtils.java:13-35 | The indexOf loop returns the number of positions of s that hold c. |
| StringUtils.GetIndexOfChar | src/main/java/com/anode/tool/StringUtils.java:38-89 | Counting from the start, it returns the position of the occurrence-th c; counting from the end, the occurrence-th c from the last one. It returns -1 when occurrence < 1, when there are fewer occurrences, or when s is empty. |
| StringUtils.IsNullOrEmpty | src/main/java/com/anode/tool/StringUtils.java:92-99 | True exactly when s is null or every character of s is at most U+0020, so that trimming leaves nothing. |
| StringUtils.CompareWithMany | src/main/java/com/anode/tool/StringUtils.java:152-164 | True exactly when the array is not null and first is one of its elements. |
| StringUtils.CompareStringWithMany | src/main/java/com/anode/tool/StringUtils.java:203-215 | A null array gives false. A null first throws NullPointerException when the array has an element and gives false when it is empty. Otherwise the result is true exactly when some non-null element equals first. |
| StringUtils.UnescapeLoop | src/main/java/com/anode/tool/StringUtils.java:123-147 | The buffer loop drops a character exactly when it is ec, is not last, and the next character is ec or in chars. Every other character is kept in order, and the character after a dropped one is examined in turn. |
| StringUtils.RemoveEscapeChars | src/main/java/com/anode/tool/StringUtils.java:123-149 | The result is the unescaped text, trimmed. |
| StringUtils.EscapeLoop | src/main/java/com/anode/tool/StringUtils.java:167-177 | The buffer loop puts ec before every character that is ec or in chars, and keeps all characters in order. |
| StringUtils.EscapeChars | src/main/java/com/anode/tool/StringUtils.java:167-179 | The result is the escaped text, trimmed. |
| StringUtils.UnescapeEscape | src/main/java/com/anode/tool/StringUtils.java:123-179 | Unescaping what escaping produced gives the same text as unescaping the original. |
| StringUtils.UnescapeIdentity | src/main/java/com/anode/tool/StringUtils.java:123-149 | Unescaping leaves s unchanged exactly when no ec in s stands before ec or a character of chars. |
| StringUtils.EscapeRoundTrip | src/main/java/com/anode/tool/StringUtils.java:123-179 | For every escape character, including a blank one, removeEscapeChars(escapeChars(s)) == s when s has no trimmable end and no ec of s stands before a special character. |
| StringUtils.TrimEscapeDecodes | src/main/java/com/anode/tool/StringUtils.java:123-179 | The trim at the end of escapeChars removes nothing that decoding keeps. When ec is blank it removes only the ec placed before a special first character. |
| StringUtils.EscapeRoundTripNoEscapeChar | src/main/java/com/anode/tool/StringUtils.java:123-179 | The round trip holds for every trimmed s that contains no ec, whatever ec is. |
| StringUtils.BlankEscapeRoundTrip | src/main/java/com/anode/tool/StringUtils.java:123-179 | With the blank escape character ' ', ".a" escapes to " .a" and comes back as ".a". |
| StringUtils.EscapedEscapeIsLost | src/main/java/com/anode/tool/StringUtils.java:123-179 | The two characters `\.` escape to `\\\.`, which decodes to `.`, so the round trip fails once s contains ec. |
| StringUtils.EscapeGuardsReserved | src/main/java/com/anode/tool/StringUtils.java:167-179 | In escaped text, every character of chars other than ec is preceded by ec. |
| Tokens.PlainTokenAccessors | src/main/java/com/anode/tool/document/Token.java:11-26 | A token built from (field, isLeaf) answers getField with field, isLeaf with isLeaf, and isArray with false. |
| Tokens.ArrayTokensAreArrays | src/main/java/com/anode/tool/document/Token.java:20-22 | Every array token form answers isArray with true. |
| Parser.FirstUnescaped | src/main/java/com/anode/tool/document/Parser.java:124-136 | It returns the first position at or after start holding symbol with no backslash right before it, or -1 when there is none. |
| Parser.IsPresent | src/main/java/com/anode/tool/document/Parser.java:76-101 | The indexOf loop, which steps past escaped hits, returns the first unescaped position of symbol, or -1. |
| Parser.GetStringTokens | src/main/java/com/anode/tool/document/Parser.java:103-122 | The scan returns the pieces of the path after its first two characters, cut at every unescaped '.'. |
| Parser.StringTokensJoin | src/main/java/com/anode/tool/document/Parser.java:103-122 | The pieces joined back with '.' give everything after the first two characters, less a final separator. |
| Parser.StringTokensOfJoin | src/main/java/com/anode/tool/document/Parser.java:103-122 | "$." followed by pieces joined with '.' splits back into exactly those pieces, when each piece's dots are escaped and no piece but the last ends in a backslash. |
| Parser.GetArrayToken | src/main/java/com/anode/tool/document/Parser.java:43-74 | It builds `name[]`, `name[key=value]` (cut at the first unescaped '=') or `name[index]`, with the body running to the last ']'. It fails when nothing follows '[', when no ']' follows it, or when the index is no number. |
| Parser.TrailingTextIgnored | src/main/java/com/anode/tool/document/Parser.java:55-56 | Text after the last ']' of an array piece, holding no ']' itself, does not change the token. |
| Parser.TokensUpToSpec | src/main/java/com/anode/tool/document/Parser.java:18-41 | getTokens(list) succeeds exactly when every piece gives a token. It then holds one token per piece, in order. |
| Parser.TokensUpToFirstFailure | src/main/java/com/anode/tool/document/Parser.java:22-33 | A failed getTokens(list) fails with the error of the first piece that throws: every earlier piece gives a token, and that piece fails with exactly this error. |
| Parser.GetTokensOfPieces | src/main/java/com/anode/tool/document/Parser.java:18-41 | The loop over the pieces returns the result of the token specification. |
| Parser.GetTokens | src/main/java/com/anode/tool/document/Parser.java:12-16 | getTokens(path) is the token list of the path's pieces. |
| Parser.TokensShape | src/main/java/com/anode/tool/document/Parser.java:18-41 | A successful parse has one token per piece, and exactly the last token is the leaf. |
| Parser.EmptyPieceKept | src/main/java/com/anode/tool/document/Parser.java:103-122 | An empty piece between two dots is kept. |
| Parser.TrailingDotDropped | src/main/java/com/anode/tool/document/Parser.java:117-119 | The empty piece after a final dot is not kept. |
| Parser.EscapedBackslashStillEscapesDot | src/main/java/com/anode/tool/document/Parser.java:124-136 | isEscaped looks only one character back, so the dot in `a\\.b` counts as escaped. |
| Parser.PlainPiece | src/main/java/com/anode/tool/document/Parser.java:30-37 | A one-letter piece with no '[' becomes a plain token holding that letter. |
| Parser.IndexPiece | src/main/java/com/anode/tool/document/Parser.java:43-69 | For a one-letter name n and a digit d, `n[d]` becomes the index token for element d of n. |
| Parser.FilterPiece | src/main/java/com/anode/tool/document/Parser.java:43-63 | For one-letter n, k and v, `n[k=v]` becomes the key/value token for n, with key k and value v. |
| Parser.AllPiece | src/main/java/com/anode/tool/document/Parser.java:48-51 | For a one-letter name n, `n[]` becomes the all-elements token of n. |
| Parser.TokenOfPieceText | src/main/java/com/anode/tool/document/Parser.java:30-74 | Every token whose parts can be written into a piece reads back unchanged from the piece it is written as, leaf flag included. |
| Parser.PlainReadBack | src/main/java/com/anode/tool/document/Parser.java:30-37 | A trimmed name with no lost escape, its reserved characters escaped, reads back as the plain token of that name. |
| Parser.AllReadBack | src/main/java/com/anode/tool/document/Parser.java:43-51 | An escaped name followed by `[]` reads back as the all-elements token of that name. |
| Parser.IndexReadBack | src/main/java/com/anode/tool/document/Parser.java:43-69 | An escaped name followed by `[i]`, with i any int written in decimal, reads back as the index token for element i of that name. |
| Parser.FilterReadBack | src/main/java/com/anode/tool/document/Parser.java:43-63 | An escaped name followed by `[key=value]`, key and value escaped, reads back as the key/value token of those three parts. |
| Parser.BracketAtEndPiece | src/main/java/com/anode/tool/document/Parser.java:48 | A piece ending in its first '[' fails, because charAt reads past the end. |
| Parser.NoClosingBracketPiece | src/main/java/com/anode/tool/document/Parser.java:55-56 | A piece with no ']' after its '[' fails, because substring gets an end before its start. |
| Parser.BadIndexPiece | src/main/java/com/anode/tool/document/Parser.java:64-67 | `n[x]`, where x is no digit and no '=', fails with a bad-index error on the text x. |
| Parser.SamplePath | src/main/java/com/anode/tool/document/Parser.java:12-74 | `$.a.b[2].c[k=v].d[]` parses to a plain token, an index token, a key/value token and an all-elements leaf token. |
| Parser.MalformedPieces | src/main/java/com/anode/tool/document/Parser.java:43-74 | `a[`, `a[1` and `a[x]` fail with their three different errors. |
| JavaLang.SplitSpec | src/main/java/com/anode/tool/engine/TemplateEngine.java:97 | No piece of split on one character contains it. Joined back, the pieces give the input less its trailing separators. |
| JavaLang.ParseDecimal | src/main/java/com/anode/tool/document/Parser.java:67 | Integer.parseInt reads back what Integer.toString writes, for every int. |
| JavaLang.FirstIndexAppend | src/main/java/com/anode/tool/graph/Node.java:52-54 | After an append, indexOf finds the element where it was before, or at the end when it was absent. |
| Graph.Node.constructor | src/main/java/com/anode/tool/graph/Node.java:28-30 | A new node has the content, no parent, no children and no attributes. |
| Graph.Node.WithParent | src/main/java/com/anode/tool/graph/Node.java:39-45 | The node records its parent and, when that parent is not null, is appended to the parent's children. Nothing else of the parent changes. |
| Graph.Node.AddChild | src/main/java/com/anode/tool/graph/Node.java:52-54 | The child, which may be null, is appended. Earlier children keep their positions, and the child's position is its old one or the end. |
| Graph.Node.GetChild | src/main/java/com/anode/tool/graph/Node.java:62-64 | It returns the i-th child for an index in range, a null child as Some(null), and None otherwise. |
| Graph.Node.GetChildPosition | src/main/java/com/anode/tool/graph/Node.java:72-74 | It returns the first index holding that very node, or null, and -1 exactly when it is not a child. |
| Graph.Node.RemoveChild | src/main/java/com/anode/tool/graph/Node.java:82-84 | For an index in range it returns the old i-th child and shifts the later ones down. Otherwise it returns None and nothing changes. |
| Graph.Node.RemoveChildren | src/main/java/com/anode/tool/graph/Node.java:89-91 | Afterwards there are no children and the node is a leaf. |
| Graph.Node.GetChildrenCount | src/main/java/com/anode/tool/graph/Node.java:98-100 | It returns the number of children. |
| Graph.Node.GetParent | src/main/java/com/anode/tool/graph/Node.java:107-109 | It returns the parent reference. |
| Graph.Node.SetParent | src/main/java/com/anode/tool/graph/Node.java:116-118 | Only this node's parent field changes, and the node is a root exactly when the new parent is null. |
| Graph.Node.GetAttribute | src/main/java/com/anode/tool/graph/Node.java:126-128 | It returns the stored value, or None for an absent name. The name may be null, which HashMap accepts as a key. |
| Graph.Node.SetAttribute | src/main/java/com/anode/tool/graph/Node.java:137-139 | It returns the previous value. Afterwards the name, possibly null, exists and holds the new value, and every other attribute is unchanged. |
| Graph.Node.AttributeExists | src/main/java/com/anode/tool/graph/Node.java:147-149 | A name whose getAttribute gives a value exists, and a name that does not exist reads as None. A name holding null exists although it reads as None. |
| Graph.Node.IsRoot | src/main/java/com/anode/tool/graph/Node.java:156-158 | True exactly when getParent() is null. |
| Graph.Node.IsLeaf | src/main/java/com/anode/tool/graph/Node.java:165-167 | True exactly when getChildrenCount() is 0, that is when getChild gives nothing for every index. |
| Graph.Node.GetContent | src/main/java/com/anode/tool/graph/Node.java:174-176 | It returns the content. |
| Graph.Node.Clone | src/main/java/com/anode/tool/graph/Node.java:184-193 | It returns a fresh node with the same content, parent, child references and attributes, and appends it to the parent's children. The parent's own parent and attributes stay the same, and so do this node's parent and attributes. |
| Documents.Registry.constructor | src/main/java/com/anode/tool/document/XDocument.java:19-27 | At class initialisation no model is registered and the default policy is ALL_DATA_PATHS. |
| Documents.Registry.SetDefaultValidationType | src/main/java/com/anode/tool/document/XDocument.java:47-50 | The static init(validationType) sets the default policy only. |
| Documents.Registry.ResetDefaultValidationType | src/main/java/com/anode/tool/document/XDocument.java:43-45 | The static init() sets the default policy back to ALL_DATA_PATHS. |
| Documents.LinesJoin | src/main/java/com/anode/tool/document/XDocument.java:421-430 | The aggregate text is the error entries joined by NEW_LINE, with a final NEW_LINE. |
| Documents.LinesRecover | src/main/java/com/anode/tool/document/XDocument.java:421-430 | When no entry holds a line break, splitting the aggregate at line breaks gives the entries back, followed by one empty piece. |
| Documents.ProcessErrors | src/main/java/com/anode/tool/document/XDocument.java:421-430 | It completes exactly when the list is empty. Otherwise it throws "jdoc_err_28" followed by every entry and NEW_LINE, in order. |
| Documents.ValidateNodes | src/main/java/com/anode/tool/document/XDocument.java:412-417 | The node-level validation returns no errors. |
| Documents.XDocument.Blank | src/main/java/com/anode/tool/document/XDocument.java:29-36 | Before any constructor body, the type is "", the policy is ALL_DATA_PATHS, the document is not validated and there is no root node. |
| Documents.XDocument.Untyped | src/main/java/com/anode/tool/document/XDocument.java:56-62 | XDocument() parses `<root></root>`; it throws "jdoc_err_1" when that parse fails. The new document has type "", policy ALL_DATA_PATHS, and is not validated. |
| Documents.XDocument.FromXml | src/main/java/com/anode/tool/document/XDocument.java:65-71 | XDocument(xml) parses xml, or throws "jdoc_err_1" with the cause. The other fields keep their defaults. |
| Documents.XDocument.Typed | src/main/java/com/anode/tool/document/XDocument.java:77-102 | A null or empty type throws "jdoc_err_56", and a parse failure throws "jdoc_err_1". After a successful parse it succeeds exactly under ONLY_AT_READ_WRITE, with no model lookup. Any other policy throws "model not found" for an unregistered type and the isTyped failure for a registered one. On success the type, policy and root are set and the document is not validated. |
| Documents.XDocument.TypedDefault | src/main/java/com/anode/tool/document/XDocument.java:73-75 | XDocument(type, xml) has every outcome of the typed constructor, with the static default policy in place of the given one: the missing type, the parse failure, success exactly under ONLY_AT_READ_WRITE, and otherwise the model-not-found or isTyped failure. |
| Documents.XDocument.Init | src/main/java/com/anode/tool/document/XDocument.java:81-102 | It checks the type before touching any field, then stores the policy and type. A null xml parses `<root></root>`. It validates unless the policy is ONLY_AT_READ_WRITE. |
| Documents.XDocument.ValidateAs | src/main/java/com/anode/tool/document/XDocument.java:392-409 | A type without a model throws "Document model not found for " + type. Otherwise the empty error list passes processErrors and isTyped throws UnsupportedOperationException. isValidated never changes. |
| Documents.XDocument.Validate | src/main/java/com/anode/tool/document/XDocument.java:385-390 | A null type throws NullPointerException (ConcurrentHashMap.get). Otherwise it is validate(type, ALL_DATA_PATHS). |
| Documents.XDocument.IsTyped | src/main/java/com/anode/tool/document/XDocument.java:113-117 | It always throws UnsupportedOperationException("Unimplemented method 'isTyped'"). |
| Documents.XDocument.GetType | src/main/java/com/anode/tool/document/XDocument.java:104-106 | It returns the stored type. |
| Zebra.AppendLabelLines | src/main/java/com/anode/tool/print/zebra/EPL2Printer.java:78-85 | The loop appends one line per piece of the barcode split on '\', with a running y position that wraps like a Java int. |
| Zebra.RunningLinesPlaced | src/main/java/com/anode/tool/print/zebra/EPL2Printer.java:78-85 | The running y position reaches a closed form: the k-th line stands at yStart + k * increment, wrapped to an int. |
| Zebra.AppendBlocks | src/main/java/com/anode/tool/print/zebra/EPL2Printer.java:68-73 | The loop writes one label per barcode, in list order: "N", its lines, then the print-command tail. |
| Zebra.RepeatBlocks | src/main/java/com/anode/tool/print/zebra/EPL2Printer.java:61-67 | The copy loop writes the whole list of labels once per copy, each ending in "P1", and writes nothing for copies <= 0. |
| Zebra.BlockCopiesOrder | src/main/java/com/anode/tool/print/zebra/EPL2Printer.java:61-67 | Block mode prints copies * size labels, and label number c * size + i is barcode i: the list is printed whole, then whole again. |
| Zebra.RepeatTextConcat | src/main/java/com/anode/tool/print/zebra/EPL2Printer.java:61-67 | Writing the list's text n times is writing the list repeated n times. |
| Zebra.Printer.constructor | src/main/java/com/anode/tool/print/zebra/EPL2Printer.java:29-37 | Every setting is stored as given, and nothing has been sent. |
| Zebra.Printer.AddBarCodeCommands | src/main/java/com/anode/tool/print/zebra/EPL2Printer.java:78-85 | It appends the barcode's label lines at xStartPosition, starting at yStartPosition, to the buffer. |
| Zebra.Printer.BarCodeLinesAt | src/main/java/com/anode/tool/print/zebra/EPL2Printer.java:78-85 | The label lines are the placed lines, in order. |
| Zebra.Printer.PlacedLineAt | src/main/java/com/anode/tool/print/zebra/EPL2Printer.java:80-83 | Line k is `A{x},{yStart + k * yIncrement},0,3,1,1,N,"{piece k}"`, with the y position wrapped to an int. |
| Zebra.Printer.PrintBarCode | src/main/java/com/anode/tool/print/zebra/EPL2Printer.java:57-76 | It sends exactly one text. In block mode that is the whole list once per copy, each label printed once; otherwise each barcode once, printed copies times. |
| Zebra.Printer.PrintNothing | src/main/java/com/anode/tool/print/zebra/EPL2Printer.java:57-76 | An empty list, or block mode with copies <= 0, sends the empty text. |
| Zebra.Printer.PrintCommandsBlockMode | src/main/java/com/anode/tool/print/zebra/EPL2Printer.java:61-67 | The block-mode text is the list of labels repeated once per copy. |
| Zebra.Printer.Reset | src/main/java/com/anode/tool/print/zebra/EPL2Printer.java:39-55 | It sends "^@", then one text holding the speed, density and label-width commands, in that order. |
| Zebra.Printer.Calibrate | src/main/java/com/anode/tool/print/zebra/EPL2Printer.java:116-118 | It sends "xa". |
| Engine.KeySegmentsSpec | src/main/java/com/anode/tool/engine/TemplateEngine.java:96-99 | The key's segments hold no '.' and no '-'. Joined back with '.', they give the key with every '-' turned into '_' and the trailing dots dropped. |
| Engine.FiresIff | src/main/java/com/anode/tool/engine/TemplateEngine.java:101 | The indexOf test fires exactly at the last segment, and only when that name does not occur earlier in the key. |
| Engine.WalkStores | src/main/java/com/anode/tool/engine/TemplateEngine.java:100-108 | When the last segment does not repeat an earlier one, following the segments from the result reaches the value. |
| Engine.WalkRepeatedLast | src/main/java/com/anode/tool/engine/TemplateEngine.java:101-106 | When the last segment repeats an earlier name, only maps are created, and a map, not the value, stands at the end of the path. |
| Engine.WalkKeepsOthers | src/main/java/com/anode/tool/engine/TemplateEngine.java:102-106 | Whatever stands at a path that parts ways with the key's segments is left as it was. Keys that share a prefix share its maps. |
| Engine.WalkFailsIff | src/main/java/com/anode/tool/engine/TemplateEngine.java:105-106 | The walk throws ClassCastException exactly when a string stands where it has to move into a map. The value plays no part. |
| Engine.WalkOverwrite | src/main/java/com/anode/tool/engine/TemplateEngine.java:102-106 | Walking the same key twice is walking it once with the second value. |
| Engine.ConvertIgnoresEmpty | src/main/java/com/anode/tool/engine/TemplateEngine.java:95 | Skipping entries whose value is "" is converting only the other entries. |
| Engine.ConvertFailureFinal | src/main/java/com/anode/tool/engine/TemplateEngine.java:91-112 | Once an entry throws, the whole conversion throws that exception, whatever follows. |
| Engine.ConvertStores | src/main/java/com/anode/tool/engine/TemplateEngine.java:91-112 | An entry's value stands at its key's path in the result when its last segment is stored and every later entry with a value parts ways with that path. |
| Engine.ConvertOverwrite | src/main/java/com/anode/tool/engine/TemplateEngine.java:102-103 | Of two consecutive entries whose keys have the same segments, the second wins. |
| Engine.OrderMattersTextFirst | src/main/java/com/anode/tool/engine/TemplateEngine.java:105-106 | For names a and b free of '.' and '-', and values that are not empty, the entries (a, x) then (a.b, y) throw ClassCastException at a. |
| Engine.OrderMattersTreeFirst | src/main/java/com/anode/tool/engine/TemplateEngine.java:91-112 | For distinct names a and b free of '.' and '-', and values that are not empty, the same two entries the other way round give {a: x}: the string replaces the map that held b. |
| Engine.StoreEntry | src/main/java/com/anode/tool/engine/TemplateEngine.java:96-108 | The inner cursor loop over one key gives the result of the walk specification. |
| Engine.LoopConvert | src/main/java/com/anode/tool/engine/TemplateEngine.java:91-112 | The loop over the entries gives the result of the conversion specification. |
| Events.ChosenSpec | src/main/java/com/anode/tool/event/EventFlattener.java:66-79 | The enabled positions are exactly those whose flag is on, in increasing order. |
| Events.SelectedAt | src/main/java/com/anode/tool/event/EventFlattener.java:19-32 | The k-th emitted item is the item at the k-th enabled position. |
| Events.SelectedAll | src/main/java/com/anode/tool/event/EventFlattener.java:13-15 | With every flag on, every item is emitted. |
| Events.Flattener.constructor | src/main/java/com/anode/tool/event/EventFlattener.java:11-17 | All three flags start true, and no list has been built yet. |
| Events.Flattener.GetFields | src/main/java/com/anode/tool/event/EventFlattener.java:19-40 | It puts a new list in the list field holding the date, numeric date and type fields of the enabled flags, in that order. Only the list field changes, so a list returned earlier keeps its items. |
| Events.Flattener.AppendDate | src/main/java/com/anode/tool/event/EventFlattener.java:34-36 | It appends the formatter's text for the event's date to the list, and nothing else changes in it. |
| Events.Flattener.AppendEventType | src/main/java/com/anode/tool/event/EventFlattener.java:38-40 | It appends the simple name of the event's class to the list, and nothing else changes in it. |
| Events.Flattener.AppendNumericalDate | src/main/java/com/anode/tool/event/EventFlattener.java:50-52 | It appends Long.toString of the event's epoch milliseconds. |
| Events.Flattener.GetFieldnames | src/main/java/com/anode/tool/event/EventFlattener.java:66-79 | It returns "Date", "Millisecs. 1970" and "Type" for the enabled flags, in that order. |
| Events.Flattener.FieldsMatchNames | src/main/java/com/anode/tool/event/EventFlattener.java:19-79 | Fields and titles have the same count. The field at a title's position is the value that title names, the numeric date being the decimal string of the milliseconds. |
| Events.Flattener.DefaultFields | src/main/java/com/anode/tool/event/EventFlattener.java:13-15 | With the default flags, both lists have all three entries, in order. |
| Events.Flattener.SetAppendEventType | src/main/java/com/anode/tool/event/EventFlattener.java:46-48 | It sets its own flag, and nothing else changes. |
| Events.Flattener.SetAppendDate | src/main/java/com/anode/tool/event/EventFlattener.java:58-60 | It sets its own flag, and nothing else changes. |
| Events.Flattener.SetAppendNumericalDate | src/main/java/com/anode/tool/event/EventFlattener.java:62-64 | It sets its own flag, and nothing else changes. |
| Events.Flattener.SetDateFormatter | src/main/java/com/anode/tool/event/EventFlattener.java:85-87 | It replaces the date formatter, and nothing else changes. |

## Left out

- `Document.java` is an interface. The XDocument methods that implement it throw UnsupportedOperationException, and they are not modelled beyond `isTyped`.
- Jackson's `XmlMapper.readTree` is a given function from text to a root node, or to the text of its IOException. The root node itself is a type parameter.
- `XDocument(String xml)` with a null `xml` is not modelled: Jackson's behaviour on null input is outside the model.
- `XDocument.getDefaultValidationType` and `setType` are not modelled, and neither is any operation of XDocument.java other than construction, `getType`, both `validate` overloads, the node-level `validate` and `processErrors`.
- The `validationTypes` enum is not shown beyond its uses. Its third value is a placeholder, and only the test against ONLY_AT_READ_WRITE matters.
- `NEW_LINE` is the platform line separator, fixed here to a line feed.
- `EPL2Printer.sendCommands` is left out: it opens a socket, writes, and reports failures. `SendCommands` records the text as sent and never fails. The pause in `reset` is left out too.
- Zebra.Printer.PrintBarCode: the order of block copies follows the code (the copy loop is outermost), which is the opposite of the order the javadoc of BarCodePrinter.java:11 describes.
- Graph.Node.GetChild and Graph.Node.RemoveChild return None where Java throws IndexOutOfBoundsException.
- Graph.Node.Clone: the child list of the copy is a new sequence holding the same node references. Java's LinkedList identity is not modelled.
- Graph.Node.GetAttribute: a stored null and an absent name both read as None, as in Java.
- Parser.TokenOfPieceText: covers only tokens whose parts read back. A name, key or value must be trimmed and hold no backslash in front of `.`, `[`, `]`, `=` or another backslash. getTokens trims every part, and it drops such a backslash. The name of an array token and a filter key must also not end in a backslash, because that backslash would escape the following `[` or `=`.
- Parser.GetArrayToken: the `while (true)` of Parser.java:47-71 runs at most once, so it is written without a loop.
- Text is a Dafny `string`, a sequence of Unicode scalar values, whereas a Java `String` is a sequence of UTF-16 code units. Lengths and indices, as returned by `GetIndexOfChar`, `IsPresent` and `FirstUnescaped`, agree with Java's only for text inside the Basic Multilingual Plane. After a supplementary character, Java's indices are larger by one for each such character. A `char` argument of the model can also be a supplementary character, which a Java `char` cannot hold. No Unicode case or digit rules beyond ASCII are modelled: `Integer.parseInt` accepts only ASCII digits here.
- `String.split` is modelled only for a pattern matching one literal character, the only kind the core uses.
- Engine.StoreEntry: Java's cursor `tmpMap` is an alias into `retMap`. Here the maps are values: the cursor is the current map plus the chain of maps above it, written back when the key is done. Java never shares a nested map between two parents, so the outcome is the same.
- Engine.LoopConvert: the Properties table is taken as a sequence of string entries in the order its entry set yields them. The Properties file loading, Jinjava rendering and `unixToEngineVariable` are not part of this model.
- Events.Flattener.GetFields: an event is reduced to its epoch milliseconds and its class's simple name. An event with a null date, on which Java throws NullPointerException, is not modelled. `SimpleDateFormat` is an opaque function from milliseconds to text, and the getters `isAppendEventType`, `isAppendNumericalDate` and `getDateFormatter` are plain field reads.
- Threads, SSH, compilation, zip, encryption, command-line printing and the event manager of the repository are not part of this model.
