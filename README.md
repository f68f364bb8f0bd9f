# squid-js core, modelled in Dafny

squid-js is a small framework for defining web components as `.ux` files and rendering them from JSON-like view descriptions. This project models its core and proves properties about it:

- **Two `.ux` compilers** (`UXCompiler` and `Compiler`). Each reads the `namespace: <name>;` header and checks the HTML sections. It collects every validation error in a fixed order, and throws the list only when it is not empty. Each then fills a component class template.
- **The component registry.** This is one map per component kind (HTML, COMPOSITE), with a "can define" check and two lookups.
- **The breadth-first renderer `UI`.** It drains a FIFO queue of component descriptions. Each breadth-first visit creates an element with a `ux-N` id and the description's defined fields as attributes.
- **The view-model tree.** A `ViewModel` node keeps the non-reserved fields of its view state, runs the update callbacks registered for a written path, is attached to at most one target, and holds an ordered list of child nodes. `GenesisViewModel` is its singleton root.

Files:

- `wrappers.dfy`: `Option`, `Result` and `Outcome`.
- `js.dfy`: the JavaScript and lodash built-ins the code calls.
- `js_literal.dfy`: JavaScript single-quoted string literals: what a literal denotes, and a quoting function.
- `texts_between.dfy`: the `[`/`]` placeholder scanner (`split`, `get`, `replace`).
- `ux_header.dfy`: the header both parsers share and the errors of `src/services/errors.ts`.
- `ux_compiler.dfy`, `compiler.dfy`, `storage.dfy`, `ui.dfy`, `view_model.dfy`: one per core file.

How each core file is modelled:

- The two parsers are methods. They accumulate an error list and are proved equal to reference functions; lemmas then characterise those functions.
- The registry, the renderer and the view-model tree are classes whose methods update fields in place.
- The renderer's loop is proved against `Bfs`, a reference definition of the breadth-first order. The properties promised about it are proved about `Bfs`.
- The generated `html` substitution is given a meaning by a small evaluator for the JavaScript it consists of: string literals, `this.getAttribute(...) || ''` lookups and `+`. The evaluator reads the generated text, so it is independent of how the text was produced.

## Model

| member | source | states |
|---|---|---|
| UxHeader.HeaderEnd | src/services/UXCompiler.ts:76-80 | The header end is -1, or it is the index of the first `;`, with the text before it matching `^namespace: [^<]+$`. |
| UxHeader.WellFormedHeader | src/services/UXCompiler.ts:76-87 | For `namespace: n;rest`, where `n` is non-empty and has no `;` or `<`: the end is at the `;`, the namespace is `n` trimmed and normalised, and the parser gets exactly `rest`. |
| UxHeader.NoSemicolon | src/services/UXCompiler.ts:76-87 | Without a `;` the header is rejected. The namespace then comes from the first 11 characters (`substring(11, -1)`), and the whole file goes to the HTML parser. |
| UxHeader.NoHeaderReportedOnce | src/services/UXCompiler.ts:76-85 | A file with no `;` that starts with a non-white-space character records exactly one `NamespaceMissing`, because its first 11 characters trim to a non-empty namespace. |
| UxHeader.ParseHeader | src/services/UXCompiler.ts:76-87 | The header step returns the namespace, the text after the header and the errors: a `NamespaceMissing` for a malformed header, then another for an empty namespace. |
| UxHeader.HeaderErrors | src/services/Compiler.ts:85-93 | The header records at most two errors, and each is `NamespaceMissing` for the file. |
| UxHeader.Body | src/services/UXCompiler.ts:87 | The text given to the HTML parser is the whole file when there is no header. Otherwise the file is the header, `;`, then that text. |
| UxHeader.SkipSeparators | src/services/UXCompiler.ts:82 | Skipping a run of `/` and `\` leaves a suffix of the input that does not start with a separator. |
| UxHeader.CollapseSeparators | src/services/UXCompiler.ts:82 | The normalised namespace holds no `/` or `\`, is no longer than the input, and is empty only for an empty input. |
| UxHeader.CollapseIdentity | src/services/UXCompiler.ts:82 | A namespace without separators is unchanged by normalising. |
| UxHeader.CollapseIdempotent | src/services/UXCompiler.ts:82 | Normalising twice gives the same result as normalising once. |
| UxHeader.SkipRun | src/services/UXCompiler.ts:82 | Skipping separators removes exactly a leading run of separators. |
| UxHeader.CollapseRunStart | src/services/UXCompiler.ts:82 | A leading run of separators becomes a single `.`. |
| UxHeader.CollapseRun | src/services/UXCompiler.ts:82 | A run of separators between two separator-free texts becomes a single `.`. |
| UxHeader.PlainPair | src/services/UXCompiler.ts:82 | `a/b` passes the header pattern, and trims and normalises to `a.b`. |
| UxHeader.NamespaceExample | src/services/__tests__/UXCompiler.test.ts:32 | The header `namespace: a/b;` declares the namespace `a.b` and records no error, as a header with `form/field` gives `form.field`. |
| UxHeader.ReportedMembers | src/services/UXCompiler.ts:92-107 | An error is in the reported list exactly when it is one of the checks and its condition holds. |
| UxHeader.ReportedFour | src/services/UXCompiler.ts:92-107 | Four checks in a row report their errors in check order. |
| UxCompiler.Parse | src/services/UXCompiler.ts:72-123 | Parsing fails exactly when some header or document check fails. The failure carries all errors in detection order. On success it returns the namespace, the basename, the style, the trimmed html, its variables and the script. |
| UxCompiler.CheckDocument | src/services/UXCompiler.ts:90-107 | The document checks record, in order: `MultipleStyles` for more than one head or body style; then `MultipleHtmlBody` for more than one non-script body element, or `HtmlBodyMissing` for none; then `MultipleScript` for more than one script. |
| UxCompiler.DocumentErrorsUnfold | src/services/UXCompiler.ts:92-107 | The document errors are the failing checks, each in its place. |
| UxCompiler.ParseAccepts | src/services/UXCompiler.ts:109-111 | Nothing is thrown exactly when the header is well formed with a non-empty namespace, there is at most one style and at most one script, and the body has exactly one non-script element. |
| UxCompiler.DocumentErrorReported | src/services/UXCompiler.ts:92-107 | Each document error is reported exactly when its condition holds. |
| UxCompiler.InvalidDocumentErrors | src/services/UXCompiler.ts:90-107 | A document with no head and a body of two styles and two divs fails exactly the style check and the html check, in that order. |
| UxCompiler.InvalidFileErrors | src/services/__tests__/UXCompiler.test.ts:8-21 | A file without header, whose body holds two styles and two divs, throws `[NamespaceMissing, MultipleStyles, MultipleHtmlBody]`. |
| UxCompiler.SelectAt | src/services/UXCompiler.ts:90-104 | Each selector (`head > style`, `body > :not(script)`, ...) returns, at its `k`-th place, the inner html of the element at the `k`-th selected position, and that element matches the selector. |
| UxCompiler.PositionsIncrease | src/services/UXCompiler.ts:90-104 | The selected positions strictly increase, so a selection keeps document order. |
| UxCompiler.PositionsComplete | src/services/UXCompiler.ts:90-104 | Every element that matches the selector is selected. |
| UxCompiler.SelectCons | src/services/UXCompiler.ts:90-104 | Both selections of a list take the head element into account, then the rest of the list. |
| UxCompiler.ElementNameOfFile | src/services/UXCompiler.ts:36-38 | The custom element of the file `dir/n.ux` is named `kebabCase(namespace)`, `-`, then `n`, where the namespace is the one the header declares. |
| UxCompiler.LiteralAsWrittenSound | src/services/UXCompiler.ts:45 | For html text without `\` or CR, the literal as written denotes the text without its line feeds. |
| UxCompiler.RemoveEscapeCommute | src/services/UXCompiler.ts:45 | Escaping quotes and removing line feeds can be done in either order. |
| UxCompiler.EscapeQuotesDecode | src/services/UXCompiler.ts:45 | Text without `\` or line breaks, with its quotes escaped, decodes back to itself. |
| UxCompiler.LiteralAsWrittenBackslash | src/services/UXCompiler.ts:45 | The html text `\` gives a literal that is not well formed. |
| UxCompiler.LiteralAsWrittenCarriageReturn | src/services/UXCompiler.ts:45 | The html text CR gives a literal that is not well formed. |
| UxCompiler.StyleAsWrittenUndefined | src/services/UXCompiler.ts:53 | Without a style, the code as written inserts the literal text `undefined`. |
| UxCompiler.LiteralExpression | src/services/UXCompiler.ts:45 | The expression for a literal html part denotes exactly the part without its line feeds, for every text. |
| UxCompiler.AttributeExpression | src/services/UXCompiler.ts:47 | A variable part becomes a `this.getAttribute(q)` lookup with the empty string as fallback, where the literal `q` denotes exactly the variable's name. |
| UxCompiler.StyleExpression | src/services/UXCompiler.ts:53 | The style substitution denotes the style without its line feeds, or the empty string when there is no style. |
| UxCompiler.EvalTermPart | src/services/UXCompiler.ts:43-49 | The expression of a literal part reads back as a string literal whose value is the text without line feeds. The expression of a variable part reads back as the lookup of the attribute named by the variable, with the empty string as fallback. |
| UxCompiler.EvalJoin | src/services/UXCompiler.ts:42-50 | The `+`-joined expressions of a non-empty run of parts evaluate, for any attribute values, to the concatenation of what each part shows. |
| UxCompiler.HtmlExpressionMeaning | src/services/UXCompiler.ts:41-51 | The `html` substitution evaluates to the html with its line feeds removed and each `[name]` replaced by the value of attribute `name`, or by the empty string when it is absent. Empty html gives an empty substitution. |
| UxCompiler.LiteralAgrees | src/services/UXCompiler.ts:45 | For text without `\` or CR, the corrected literal is character for character the one the code writes. |
| UxCompiler.AttributeAgrees | src/services/UXCompiler.ts:47 | For a name without `\`, CR or LF, the corrected attribute lookup is character for character the one the code writes. |
| UxCompiler.StyleAgrees | src/services/UXCompiler.ts:53 | For a style without `\` or CR, the corrected style literal is character for character the one the code writes. |
| UxCompiler.HtmlAgrees | src/services/UXCompiler.ts:41-51 | For html without `\` or CR whose placeholder names hold no LF, the corrected `html` substitution is character for character the one the code writes. |
| UxCompiler.EscapePlain | src/services/UXCompiler.ts:45-47 | For text without `\`, CR or LF, escaping every special character is the same as escaping only quotes. |
| UxCompiler.FieldTextValues | src/services/UXCompiler.ts:58 | Any other key inserts its field as text. `name` and `script` are inserted as they are, and an absent script or an unknown key inserts nothing. The variables are joined with commas, so splitting at the commas gives them back when no variable holds a comma. |
| UxCompiler.SubstitutionMeaning | src/services/UXCompiler.ts:40-59 | The callback inserts four things. For `html`: an expression that evaluates to the html with the attributes filled in. For `style`: a literal denoting the style without line feeds, or the empty literal. For `namespace`: the kebab-cased namespace. For any other key: the field text. |
| UxCompiler.TemplateWithoutPlaceholders | src/services/UXCompiler.ts:40-59 | The generated source of a template without placeholders is the template itself. |
| Compiler.Parse | src/services/Compiler.ts:80-139 | Parsing fails exactly when some header or markup check fails, with all errors in detection order. On success it returns the sections, with the distinct variables split into plain variables and `i18n:` keys. |
| Compiler.CheckMarkup | src/services/Compiler.ts:99-123 | The markup checks record, in order: `MultipleStyles`; then `MultipleScript`; then `MultipleTemplate` for more than one template, or `TemplateMissing` for none. |
| Compiler.MarkupErrorsUnfold | src/services/Compiler.ts:100-122 | The markup errors are the failing checks, each in its place. |
| Compiler.ParseAccepts | src/services/Compiler.ts:125-127 | Nothing is thrown exactly when the header is well formed with a non-empty namespace, there is at most one style, at most one script, and exactly one template. |
| Compiler.MarkupErrorReported | src/services/Compiler.ts:100-122 | Each markup error is reported exactly when its condition holds. |
| Compiler.VariablesPartition | src/services/Compiler.ts:129-136 | As multisets, the plain variables and the `i18n:` keys add up to the de-duplicated list. The keys are exactly the template's variables that start with `i18n:`. The plain variables are exactly the rest. No variable is in both lists. |
| Compiler.VariablesInOrder | src/services/Compiler.ts:129-136 | Both lists keep the order of first appearance in the template, and neither has a repeat. |
| Compiler.SubstitutionValues | src/services/Compiler.ts:50-58 | A text value is inserted as it is, and a key the generator did not produce inserts `undefined`. An array value is joined with line feeds, so splitting the inserted text at its line feeds gives the array back when no line holds a line feed. |
| Compiler.TemplateWithoutPlaceholders | src/services/Compiler.ts:50-58 | The generated source of a template without placeholders is the template itself. |
| Storage.Registry.AddDefinedComponent | src/data/storage.ts:10-12 | Adding maps the name to the definition in the given kind's map, overwriting any earlier entry. The other map is unchanged. |
| Storage.Registry.VerifyCanDefine | src/data/storage.ts:14-18 | The check fails with `UXExists(name)` exactly when either map holds the name. It changes nothing. |
| Storage.Registry.GetComponentType | src/data/storage.ts:20-29 | The lookup gives none exactly when neither map holds the name; otherwise it gives HTML when the HTML map holds it, else COMPOSITE. It changes nothing. |
| Storage.Registry.GetUIComponentDef | src/data/storage.ts:31-40 | The lookup gives the first defined definition in kind order. It gives none exactly when every map lacks the name or stores it as undefined. It changes nothing. |
| Storage.AddThenVerify | src/data/storage.ts:10-18 | After a name is added under either kind, defining it again fails with `UXExists`. |
| Storage.Registry.constructor | src/data/storage.ts:5-8 | The registry starts with both maps empty. |
| Ui.IdOfDistinct | src/services/UI.ts:52 | Different counter values give different `ux-N` ids. |
| Ui.BfsIds | src/services/UI.ts:6 | The `k`-th element created when the counter stands at `n` gets the id `ux-(n+k)`. |
| Ui.BfsIdsDistinct | src/services/UI.ts:52 | No two elements created by one drain share an id. |
| Ui.BfsCount | src/services/UI.ts:38-43 | A drain creates as many elements as the queue can create: each queued component, plus, for each one with items and an items element, everything below it. |
| Ui.BfsRenders | src/services/UI.ts:38-81 | The `k`-th element a drain creates is the view of the `k`-th job of a run whose components are, as a multiset, exactly the components the queue can create. So each queued component, and each item below one with an items element, is rendered exactly once. |
| Ui.NextRenderable | src/services/UI.ts:38-77 | One turn takes the head out of what the queue still creates and adds what its queued children create. |
| Ui.NumberedDistinct | src/services/UI.ts:52 | Elements numbered `ux-0`, `ux-1`, ... in creation order have pairwise distinct ids. |
| Ui.NumberedDrain | src/services/UI.ts:38-52 | A drain that starts with the counter at the number of elements created so far keeps the numbering. |
| Ui.BfsFifo | src/services/UI.ts:38-43 | The components already waiting are rendered first, in queue order, each with the next counter value. |
| Ui.TurnRendered | src/services/UI.ts:38-41 | One turn of the loop keeps the total of elements created so far plus elements still to come. |
| Ui.TurnLog | src/services/UI.ts:38-41 | One turn of the loop keeps the total of messages logged so far plus messages still to come. |
| Ui.ChildrenSmaller | src/services/UI.ts:38-43 | One turn shrinks the number of components still to come, so the loop ends. |
| Ui.ChildrenQueued | src/services/UI.ts:68-77 | With items and an items element, the items are queued for that element, in declaration order. |
| Ui.JobsIndex | src/services/UI.ts:69-76 | The queued entries are the items, in order, each paired with the same parent. |
| Ui.ComplaintsMembers | src/services/UI.ts:78-80 | A message is logged exactly for each element created without an items element, naming its kebab-case tag. |
| Ui.AttributeEntriesMembers | src/services/UI.ts:56-61 | A field becomes an attribute exactly when its key is not `ux` or `items` and its value is defined. |
| Ui.AttributeKey | src/services/UI.ts:56-62 | For any generated id, a key other than `id` is an attribute exactly when it is a defined field other than `ux` and `items`. |
| Ui.AttributeValue | src/services/UI.ts:56-62 | A defined field other than `ux`, `items` and `id` keeps its value as its attribute. |
| Ui.IdSetLast | src/services/UI.ts:56-62 | A user `id` field is written, then overwritten by the generated id. |
| Ui.AttributesLast | src/services/UI.ts:62 | The attributes are those of the fields, with `id` then set to the generated id. |
| Ui.UI.SetAttributes | src/services/UI.ts:56-62 | The attribute loop makes the field calls in key order, then the `id` call. |
| Ui.UI.RenderView | src/services/UI.ts:51-81 | Rendering a job creates one element with the next id and the job's attributes, and raises the counter by one. It queues the items behind the queue when the component has items and an items element. It logs the complaint when there is no items element. |
| Ui.Turn | src/services/UI.ts:38-43 | One turn of the render loop, stated on plain values: rendering the head of the queue and queueing its children keeps the elements, the messages and the counter of what is done plus what the queue still creates, and the queue shrinks. |
| Ui.UI.RenderNext | src/services/UI.ts:38-43 | One turn keeps the three totals (elements, messages, counter) of what is done plus what the queue still holds. It shrinks the work left. |
| Ui.UI.Drain | src/services/UI.ts:38-43 | The loop ends with an empty queue. It has appended exactly the breadth-first order of the old queue, raised the counter once per element, and logged each complaint. |
| Ui.UI.Render | src/services/UI.ts:26-44 | Render fails with `ElementMissing(id)` exactly when a non-empty id names no element, and then changes nothing. Otherwise it uses the found element, or else the body, as root. It queues the app, drains the queue, and appends the breadth-first order. The counter and the created elements stay in step, so no id is ever given twice, across renders too. |
| Ui.RenderMissing | src/services/__tests__/UI.test.ts:37-40 | Rendering into an id that names no element fails with `ElementMissing` for that id. |
| Ui.UI.constructor | src/services/UI.ts:6-19 | The renderer starts with the counter at 0, an empty queue and nothing rendered or logged, so the numbering invariant holds. |
| ViewModelTree.StateKey | src/model/ViewModel.ts:36-43 | A key is in the state exactly when it is a key of the view state other than `ux`, `items` and `listeners`. |
| ViewModelTree.StateValue | src/model/ViewModel.ts:36-43 | A state key keeps its value from the view state. |
| ViewModelTree.ExtractStateSpec | src/model/ViewState.ts:31 | The state holds exactly the view state's keys other than `ux`, `items` and `listeners`, each with its value unchanged. |
| ViewModelTree.StateEntriesMembers | src/model/ViewModel.ts:37-38 | An entry survives the key filter exactly when its key is not reserved. |
| ViewModelTree.OnlyUxHasEmptyState | src/model/__tests__/ViewModel.test.ts:21 | A view state with only `ux` gives an empty state. |
| ViewModelTree.KeysOf | src/model/ViewModel.ts:37 | `Object.keys` lists each entry's key, in order. |
| ViewModelTree.TriggeredMembers | src/model/ViewModel.ts:64-67 | A callback runs exactly when it is registered under a path that is the key or starts with the key and `.`. |
| ViewModelTree.TriggeredSnoc | src/model/ViewModel.ts:64-67 | The callbacks run for one more path are added at the end, in registration order. |
| ViewModelTree.MatchesBelow | src/model/ViewModel.ts:65 | A write reaches the paths below the key, but not a path that only starts with the same letters. |
| ViewModelTree.RunAll | src/model/ViewModel.ts:67 | Each callback runs once, in order. |
| ViewModelTree.ViewModel.Set | src/model/ViewModel.ts:21-26 | A state write stores the value, so a read returns it. It then notifies with the value read before the write, runs the matching callbacks, and reports success. |
| ViewModelTree.ViewModel.OnStateUpdate | src/model/ViewModel.ts:61-68 | The update hook runs exactly the matching callbacks, in registration order. |
| ViewModelTree.ViewModel.AttachTo | src/model/ViewModel.ts:75-81 | Afterwards the node is attached to exactly the target. A refusing target raises `ItemsNotAllowed` with its tag, and leaves the node detached, because the old attachment was removed first. |
| ViewModelTree.ViewModel.AttachEl | src/model/ViewModel.ts:86-96 | An element always accepts the node. A node accepts it exactly when it has an items element, and otherwise raises `ItemsNotAllowed` with its tag name. |
| ViewModelTree.ViewModel.Detach | src/model/ViewModel.ts:101-105 | The node is attached to nothing and nothing else changes, so a second call changes nothing. |
| ViewModelTree.ViewModel.AddItem | src/model/ViewModel.ts:111-117 | An existing node is appended at the end of the items, and the earlier items keep their order. |
| ViewModelTree.ViewModel.AddState | src/model/ViewModel.ts:111-117 | A view state becomes a new node attached to this one and appended. It fails exactly when this node has no items element or the new tree cannot be built. Without an items element the error carries this node's tag name. |
| ViewModelTree.ViewModel.Create | src/model/ViewModel.ts:18-34 | Construction fails exactly when the target refuses or some nested item cannot be attached. A refusing target node gives `ItemsNotAllowed` with that node's tag name. On success the node has the upper-cased kebab-case tag name, the extracted state and the target, and one child per nested item, each attached to the node with its own state. |
| ViewModelTree.ViewModel.RemoveAt | src/model/ViewModel.ts:123-132 | An index at or past the end removes nothing. Otherwise the index is treated as `splice(i, 1)` treats it, exactly that entry is removed with the others kept in order, and the removed node is detached. The removed node keeps its state and items, and every other item is unchanged. |
| ViewModelTree.ViewModel.RemoveItem | src/model/ViewModel.ts:123-132 | A present node is removed at its first position and detached. For an absent node the last item is removed and detached instead (`splice(-1, 1)`). Only this node and the removed one change. |
| ViewModelTree.ViewModel.Init | src/model/ViewModel.ts:18-48 | A new node has the extracted state, no items and no attachment. Its tag name is the upper-cased `kebabCase(ux)`, as the DOM reports the tag of the element it creates. |
| ViewModelTree.GenesisViewModel.AddItem | src/model/ViewModel.ts:153-155 | A view state becomes a new node attached to the root element and appended. |
| ViewModelTree.GenesisViewModel.constructor | src/model/ViewModel.ts:142-144 | The root starts with its element and no items. |
| ViewModelTree.Window.GetInstance | src/model/ViewModel.ts:147-151 | The first call makes the instance, rooted at the given element or else the body. Every later call returns that same instance. |
| ViewModelTree.GetInstanceTwice | src/model/ViewModel.ts:147-151 | Two calls return the same instance. |
| ViewModelTree.Window.constructor | src/model/ViewModel.ts:146 | There is no instance before the first call. |
| TextsBetween.SplitRender | src/services/UXCompiler.ts:42 | Splitting loses nothing: putting the parts back together gives the text. |
| TextsBetween.SplitWellFormed | src/services/UXCompiler.ts:42 | Splitting never yields an empty literal, and a placeholder's name holds no `]`. |
| TextsBetween.ReplaceIdentity | src/services/UXCompiler.ts:40 | Replacing each placeholder by its own text leaves the text unchanged. |
| TextsBetween.SubstitutePlaceholders | src/services/UXCompiler.ts:40 | Substituting placeholders by their source text gives back the source of the parts. |
| TextsBetween.SplitFromRender | src/services/UXCompiler.ts:42 | From any position, the parts of the rest render back to the rest. |
| TextsBetween.SplitFromWellFormed | src/services/UXCompiler.ts:42 | From any position, the parts of the rest are well formed. |
| TextsBetween.ReplaceOne | src/services/UXCompiler.ts:40 | `replace` on a placeholder between texts without brackets inserts the callback's value for the placeholder's name and keeps the texts around it. |
| TextsBetween.ReplaceLiteralOnly | src/services/UXCompiler.ts:40 | `replace` leaves a text without placeholders unchanged. |
| TextsBetween.SplitOne | src/services/UXCompiler.ts:42 | A placeholder between texts without brackets splits into the text before it, the name, and the text after it. |
| Js.TrimSlice | src/services/UXCompiler.ts:82 | The trimmed text is the slice after the leading white space, and only white space follows it. |
| Js.TrimEnds | src/services/UXCompiler.ts:82 | Non-empty trimmed text starts and ends with a character that is not white space. |
| Js.TrimEmpty | src/services/UXCompiler.ts:83 | The trimmed text is empty exactly when the text is all white space. |
| Js.TrimUnpadded | src/services/UXCompiler.ts:82 | Text without white space at its ends is unchanged by trimming. |
| Js.SubstringNegativeEnd | src/services/UXCompiler.ts:82 | `substring(start, -1)` gives the text before the clamped start. |
| Js.CharIndexFirst | src/services/UXCompiler.ts:76 | `indexOf` gives the first occurrence, and -1 exactly when there is none. |
| Js.IndexOf | src/model/ViewModel.ts:125 | An array's `indexOf` gives -1 exactly for an absent element. Otherwise it gives the element's first position. |
| Js.SpliceStart | src/model/ViewModel.ts:129 | The start of `splice`: a negative start counts back from the end and is clamped at 0, and a start past the end is clamped to the length. |
| Js.SpliceOutRemovesOne | src/model/ViewModel.ts:129 | `splice(i, 1)` on a non-empty array removes exactly one element and keeps the rest in order. |
| Js.SpliceMinusOneRemovesLast | src/model/ViewModel.ts:125-129 | `splice(-1, 1)` removes the last element. |
| Js.DecimalString | src/services/UI.ts:52 | A counter prints as one or more decimal digits. |
| Js.DecimalStringInjective | src/services/UI.ts:52 | Different counter values print differently. |
| Js.Uniq | src/services/Compiler.ts:129 | `uniq` has no repeats and keeps exactly the input's elements. |
| Js.UniqInOrder | src/services/Compiler.ts:129 | `uniq` keeps each element's first occurrence, in input order. |
| Js.Filter | src/services/Compiler.ts:135-136 | `filter` keeps exactly the elements that pass. |
| Js.FilterSplits | src/services/Compiler.ts:135-136 | Filtering by a test and by its negation splits the input as a multiset. |
| Js.FilterInOrder | src/services/Compiler.ts:135-136 | Filtering keeps the relative order. |
| Js.JoinSplitOn | src/services/Compiler.ts:53 | Joining with a character undoes splitting on it. |
| Js.SplitOnJoin | src/services/Compiler.ts:53 | Splitting on a character undoes joining with it, when no part holds the character. |
| Js.RemoveCharSplit | src/services/UXCompiler.ts:45 | Removing every occurrence of a character keeps the pieces between the occurrences, in order: it is `split(c).join('')`. |
| Js.ReplaceCharSplit | src/services/UXCompiler.ts:45 | Replacing every occurrence of a character by a text puts that text between the pieces, in order: it is `split(c).join(t)`. |
| Js.AsciiUpper | src/model/ViewModel.ts:94 | The tag name has the same length as the element name. Each lower-case ASCII letter becomes upper case, and every other character is kept. |
| Js.AssignValue | src/model/ViewModel.ts:39-42 | Storing entries one by one keeps the value of a key that is written only once. |
| Js.AssignKeys | src/model/ViewModel.ts:39-42 | The stored keys are the accumulator's keys plus the entries' keys. |
| Js.AssignSnoc | src/services/UI.ts:59-62 | Storing one more entry overwrites that key. |
| Js.BasenameOfFile | src/services/UXCompiler.ts:117 | The name of `dir/n.ux` is `n`. |
| JsLiteral.DecodeQuote | src/services/UXCompiler.ts:45-47 | A quoted text denotes exactly that text. |
| JsLiteral.DecodeEscape | src/services/UXCompiler.ts:45-47 | Escaped text decodes back to its input. |
| JsLiteral.ScanQuote | src/services/UXCompiler.ts:45-47 | A quoted text at the start of longer code reads back as exactly that text, and the code after the literal is what follows it. |

## Left out

- Reading files, `walkDirTree`, writing the generated file, the JSDOM validation run, and `js-beautify` are I/O and are not modelled. The contents of a `.ux` file are a parameter.
- cheerio is a parameter (`load`). For `UXCompiler` it returns the elements directly under `<head>` and `<body>`. For `Compiler` it returns the inner html of every `style`, `script` and `template` element. A style or script inside a template is outside this reading. The effect of `remove()` on the later selections is outside it too.
- `TextsBetween` comes from a library that is not part of this model. `texts_between.dfy` gives it a simple reading: a placeholder opens at the first `[` and closes at the first `]` after it.
- lodash `kebabCase` is the parameter `kebab` everywhere: in the renderer, in the view-model tree and in the compiler. A rendered element stores its `ux` name; its tag is `kebabCase(ux)`. A view-model node's tag name is the ASCII upper case of `kebabCase(ux)`, as an HTML document reports it.
- `Compiler.compile`'s `HtmlToJSCodeGenerator` is not part of this model. Its generated values are the parameter `generated`. A key it does not produce puts `undefined` into the output, as `String(undefined)` does.
- `getCustomElementName` is not part of this model. The `UXCompiler` naming rule models the element name.
- Js.Basename: `path.basename` is modelled for `/`-separated paths only. Its handling of trailing slashes and of Windows separators is left out.
- The DOM:
  - Elements are plain handles.
  - `getElementsByTagName('items')[0]` is the flag `hasItemsEl` of a description.
  - `domEl.data` and `domEl.remove()` are not modelled.
  - `document.getElementById` is a parameter.
  - `document.body` is never null.
  - `console.error` appends to a log.
- Ui.UI.SetAttributes: `setAttribute` values are modelled as the strings the code casts them to; converting other values to strings is left out.
- The `ItemsNotAllowed` constructor takes a second argument, which `attachEl` never passes. The model keeps only the tag name.
- ViewModelTree.ViewModel.Create: a constructor that throws part way is modelled as a failure. The partly built node, and a partly filled parent, are not kept.
- ViewModelTree.ViewModel.AttachTo: when the target refuses, the node has already been detached. The model follows the code, so the node is left detached rather than unchanged.
- A `ViewModel` added as an existing node is appended without being attached, as in the code. `detach` does not remove a node from its parent's items. Because of both, the model promises no tree-wide invariant linking items and `attachedTo`.
- ViewModelTree.ViewModel.Set: the Proxy `get` handler is a plain map lookup. Keys are strings, not symbols.
- Event listeners, bubbling and component behaviours: `ViewModel.ts` does not implement them. The update callbacks are opaque, and running one is an event in a log.
- Ui.UI.RenderView: it logs the complaint for every component without an items element, even one with no items, exactly as the code does.
- UxCompiler.Substitution: the `html` and `style` substitutions use the corrected quoting of the findings below, not the quoting the code writes. They agree character for character with the code's output when the text has no `\` or CR and, for the html, no placeholder name holds a line feed (LiteralAgrees, AttributeAgrees, StyleAgrees, HtmlAgrees). They differ on other inputs, and without a style, where the code writes `'undefined'`.
- UxCompiler.AttributeExpression: it quotes variable names with the corrected quoting. As written, line 47 escapes only quotes, so a name holding `\` or a line break breaks the literal just as in the first finding.
- UxCompiler.FieldText: `uxComponentCode[key]` also finds inherited properties such as `constructor` or `toString`, which print as function source. The model gives the empty string for every key other than `name`, `variables` and `script`.
- UxCompiler.HtmlExpressionMeaning: the value of the generated expression is stated for non-empty html only. For empty html the substitution is empty, as in the code, and what the template then makes of it is outside this model.
- The component class template (`component.js.template`) is not part of this model. The generated source is stated for a template in general: placeholders are filled through the callback, and the text between them is kept.

## Findings

| source | as written | input that shows it | evidently intended | confidence | as-written member | corrected member |
|---|---|---|---|---|---|---|
| src/services/UXCompiler.ts:45 | Literal html parts escape `'` and drop `\n`, but leave `\` as it is. | html text `\`, which gives the literal `'\'`, whose closing quote is escaped | The literal denotes the html text without its line feeds. | not executed | UxCompiler.LiteralAsWrittenBackslash | UxCompiler.LiteralExpression |
| src/services/UXCompiler.ts:45 | A carriage return is copied raw into the single-quoted literal, which is a syntax error in JavaScript. | html text holding a raw CR, e.g. `"\r"` from a file saved with CRLF line endings; the parser is called with `decodeEntities: false`, so only a raw CR in the file reaches this line | CR is removed or escaped like LF. | not executed | UxCompiler.LiteralAsWrittenCarriageReturn | UxCompiler.LiteralExpression |
| src/services/UXCompiler.ts:53 | The `?? ''` applies to a template literal, which is never undefined. Without a style, the code inserts `'undefined'`. | a `.ux` file without a `<style>` | Without a style, the empty literal is inserted. | not executed | UxCompiler.StyleAsWrittenUndefined | UxCompiler.StyleExpression |
