# TemplateParser, modelled in Dafny

This project models the `TemplateParser` class of the configuration generator
(`template-parser.js`). The class parses and renders text templates:

- **Defaults block.** A template may carry a block between `{% defaults %}`
  and `{% enddefaults %}`. It holds `key: value` lines that give default
  variable values.
- **Placeholders.** Variables are written `{{name}}` or `{{a.b.c}}`.
- **Control tags.** These are written `{{% … }}` tags.
- **Rendered blocks.** At render time, `{% for x in xs %} … {% endfor %}` and
  `{% if cond %} … {% endif %}` blocks are expanded against a data object.

The model has one module per concern:

- `Wrappers`: the `Option` type.
- `Strings`: the JavaScript string built-ins the class calls, as functions:
  - `indexOf`, `trim`, `split`, `startsWith`;
  - global literal `replace`;
  - the character classes of the regular expressions.
- `Values`: the data bag and its conversions.
  - `Value` is a string, an object or an array.
  - The dotted-path walk of `_getValueFromPath`.
  - `value || ''` turned into replacement text.
- `Conditions`: `_evaluateCondition`, over a closed grammar of conditions.
- `Defaults`: what `_parseDefaultsSection` computes.
  - How the block is found.
  - Each line's key and value.
  - The last-line-wins map.
  - The template with the block cut out.
- `Scanner`: what the cursor loop of `_parseTemplate` reads.
  - A list of spans (`Piece`): literal text, or a `{{ … }}` tag.
  - What each span adds to the node list (`templateStructure`), the loop and
    conditional descriptors, and the variable set.
  - The two header patterns of `_parseForLoop` and `_parseIfStatement`.
- `Renderer`: the three passes of `render`, as functions over the text.
  - Pass 1: placeholders of the variable set.
  - Pass 2: loop blocks.
  - Pass 3: conditional blocks.
- `Parser`: the class itself. `TemplateParser` has the five fields of the
  source and one method per method of the source. Three more methods split
  the body of the `_parseTemplate` loop: `ParseRound` (one round from a
  found `{{`), `ParseOpened` (the part from that `{{` on) and
  `ParsePlaceholder` (a closed placeholder).
  - The variable `Set` is an insertion-ordered `seq` without duplicates.
  - Each method is proved equal to the specification functions above, for
    the new state and the result.
  - The loops of `_parseDefaultsSection`, `_parseTemplate`, the loop
    callback of `render` and `_getValueFromPath` are `while`/`for` loops
    with invariants.

Behaviour of the code that the model reproduces deliberately:

- **End of the defaults block.** The template without the defaults block
  resumes 16 characters after the start of `{% enddefaults %}`. That marker
  is 17 characters long, so its final `}` stays in the text.
  `Defaults.StripKeepsOutside` states this. `Defaults.StripCreatesNoPlaceholder`
  shows it cannot create a new `{{`.
- **Quotes.** A value that is a single quote character is kept as it is.
  `substring(1, 0)` swaps its arguments in JavaScript.
- **Pass 1 runs first.** Pass 1 replaces every name of the variable set
  before loops are expanded.
  - A loop body placeholder `{{x.f}}` is itself a member of the variable set.
  - It is therefore blanked by pass 1 whenever the data has no top-level
    path `x.f`.
  - `Renderer.LoopFieldBlankedBeforeLoop` states this.
  - `Renderer.LoopFieldReadFromElements` shows what pass 2 alone would
    produce.
- **Loop collections.** `items || []` followed by `for … of`:
  - an unresolved collection gives no copies;
  - a string is iterated character by character;
  - an object is not iterable, so the loop throws. `render` then returns
    `None`.

## Model

| member | source | states |
|---|---|---|
| Strings.IndexOf | template-parser.js:33-36 | `indexOf` returns the first occurrence at or after the start position, or -1 when there is none. |
| Strings.TrimIsSlice | template-parser.js:40 | `trim` returns the slice of its argument that remains once the leading and trailing white space is dropped. |
| Strings.TrimIdempotent | template-parser.js:45 | Trimming a line twice gives the same as trimming it once. |
| Strings.Trim | template-parser.js:40 | `trim` gives a text with no white space at either end, and never a longer one. |
| Strings.Split | template-parser.js:43 | `split` gives at least one piece, even for an empty text. |
| Strings.SplitAtFirstSeparator | template-parser.js:43 | Splitting a text at its first separator gives the text before it, then the pieces of the rest. |
| Strings.SplitJoin | template-parser.js:43 | `split` on a separator gives pieces without the separator that join back to the text. |
| Strings.SplitOn | template-parser.js:202 | Splitting at a literal pattern gives pieces free of it that join back, with the pattern between them, to the text. |
| Strings.ReplaceAllIsJoin | template-parser.js:202 | A global replace of a literal is the text split at the pattern and joined with the replacement. This characterises `ReplaceAll`. |
| Strings.ReplaceAllWithoutOccurrence | template-parser.js:202 | A global replace leaves a text without the pattern unchanged. |
| Strings.RunLengthIsMaximal | template-parser.js:135 | A greedy run (`\w+`, `\s+`, `.+`) covers only characters of its class and stops before the next character that is not in it. |
| Strings.DottedRunIsMaximal | template-parser.js:259 | A greedy match of `\w+(?:\.\w+)*` yields a dotted path, and no longer one starts at the same position. |
| Values.WalkFirstSegment | template-parser.js:239-252 | A path walk enters the first segment's key of an object, and fails on anything else. |
| Values.WalkMissingIsFinal | template-parser.js:243-248 | Once a walk reaches `undefined`, no further segment can recover it. |
| Values.WalkThroughObjects | template-parser.js:243-245 | A successful walk passes only through objects that hold the next segment's key. |
| Values.ValueTextEmpty | template-parser.js:201 | `value \|\| ''` gives empty text exactly for `undefined` and falsy values. This characterises `ValueText`. |
| Values.Lookup | template-parser.js:239-252 | Only an object can resolve a path. |
| Values.LookupOneSegment | template-parser.js:240-251 | A path without a dot is the member of that name of an object, and `undefined` otherwise. |
| Values.LookupFirstSegment | template-parser.js:240-251 | A path `first.rest` enters `first` of an object and resolves `rest` there; anything else is `undefined`. |
| Values.DisplayArray | template-parser.js:201-202 | The text of an array is its elements' texts joined by commas, as `String` gives for an array. With `Display` of a string being the string, this characterises `Display`. |
| Conditions.ParseCondition | template-parser.js:259-264 | Every condition it reads has dotted paths as operands. |
| Conditions.ParseConditionReads | template-parser.js:259-268 | The converse of `ParseShow`: a test that reads is the trimmed text itself, and a comparison that reads is its left path, blanks, the operator, blanks and its right path, exactly as the trimmed text spells them. |
| Conditions.ParseShow | template-parser.js:259-268 | A condition written out with its operator reads back as the same condition. |
| Conditions.EvaluateCondition | template-parser.js:254-273 | Only a condition that reads and evaluates gives true; an evaluation that throws gives false. |
| Conditions.EvaluateShown | template-parser.js:254-273 | A written-out condition evaluates as the condition itself does. |
| Conditions.EqualityTruthTable | template-parser.js:261-268 | `l == r` holds exactly when both paths name the same string or both are undefined. |
| Conditions.InequalityTruthTable | template-parser.js:261-268 | `l != r` holds exactly when `l == r` does not. |
| Conditions.TestTruthTable | template-parser.js:261-268 | A single path holds exactly when it names a non-empty string or an array. |
| Defaults.CloseNotInsideOpen | template-parser.js:36 | The closing marker cannot start inside the opening marker, so searching from the block start finds the same close. |
| Defaults.FindBlock | template-parser.js:33-37 | A block is found exactly when an opening marker exists with a closing marker at or after it. The found positions hold those markers in order: the first opening marker, and the first closing marker after it. |
| Defaults.Unquote | template-parser.js:52-56 | A value wrapped in matching double or single quotes loses them; any other value stays as it is. |
| Defaults.Key | template-parser.js:49 | The key is the text before the first colon, trimmed; it is non-empty, colon-free and starts with the line's first character. |
| Defaults.ParseLine | template-parser.js:45-50 | A line defines an entry exactly when it is non-blank, not a comment, and has a colon after its first character. |
| Defaults.LineReads | template-parser.js:45-56 | A trimmed line `x:y` with a colon-free `x` defines the key `x` trimmed with the value `y` trimmed and unquoted, unless `x` is empty or a comment. |
| Defaults.LastEntryWins | template-parser.js:58 | Across entries, the last one written for a key gives its value. With `UnwrittenKeyAbsent`, this characterises `Assign`. |
| Defaults.LastLineWins | template-parser.js:44-61 | Across the lines of the block, the last line defining a key gives its value. With `UndefinedKeyAbsent`, this characterises the defaults map of `ExtractDefaults`. |
| Defaults.UnwrittenKeyAbsent | template-parser.js:58 | A key no entry writes is absent from the map. |
| Defaults.UndefinedKeyAbsent | template-parser.js:44-61 | A key no line defines is absent from the defaults. |
| Defaults.NoBlockLeavesTemplate | template-parser.js:33-37 | Without an opening marker, or without a close after it, the defaults are empty and the template comes back whole. |
| Defaults.StripKeepsOutside | template-parser.js:64 | The text before the block and after the closing marker is kept, with the closing marker's last `}`. This characterises `Strip` and the template part of `ExtractDefaults`. |
| Defaults.StripCreatesNoPlaceholder | template-parser.js:64 | Cutting out the block cannot create a `{{`. |
| Scanner.MatchAtSound | template-parser.js:135 | A header pattern that matches at a position spells a prefix of the text there: each run is a non-empty stretch of its class, each literal occurs as written, and the groups are exactly the captured runs. |
| Scanner.SearchNone | template-parser.js:136 | The search fails exactly when the pattern matches at no position from the start on. |
| Scanner.SearchLeftmost | template-parser.js:136 | When the pattern first matches at position `k`, the search returns the match at `k`. |
| Scanner.ForMatchReads | template-parser.js:134-140 | `for a in c` with word `a` and `c` yields the groups `a` and `c`. |
| Scanner.ForHeaderReads | template-parser.js:122-140 | The tag `% for a in c` is a loop start with alias `a` and collection `c`. |
| Scanner.StructureAppend | template-parser.js:77-115 | The nodes of two consecutive runs of spans are those of the first followed by those of the second. |
| Scanner.LoopsAppend | template-parser.js:142-148 | The loop descriptors of consecutive runs of spans concatenate. |
| Scanner.ConditionalsAppend | template-parser.js:166-171 | The conditional descriptors of consecutive runs of spans concatenate. |
| Scanner.AddAllAppend | template-parser.js:110 | Adding the names of two runs of spans is adding those of the first, then those of the second. |
| Scanner.PiecesSpellText | template-parser.js:67-120 | The spans of the scan, written out in order, spell the whole template. With `PiecesWellFormed` and `PiecesMissNoTag`, this characterises `Pieces`. |
| Scanner.PiecesWellFormed | template-parser.js:67-120 | Every tag span starts at a `{{` and ends at the first `}}` after it; literal spans are non-empty. |
| Scanner.TextNodesNonEmpty | template-parser.js:76-91 | No span list without empty literals yields an empty text node. |
| Scanner.ScanTextNodesNonEmpty | template-parser.js:76-99 | The scan never emits an empty text node. |
| Scanner.AddAllIsUnion | template-parser.js:110 | The variable set holds each name once and holds exactly the earlier names plus the variable tags' contents. |
| Scanner.VariableNodeAtTag | template-parser.js:108-116 | Every non-control tag yields a variable node with its position. |
| Scanner.LoopsMatchForStarts | template-parser.js:142-155 | The loop descriptors match the loop-start nodes one for one, in order. |
| Scanner.ConditionalsMatchIfStarts | template-parser.js:166-177 | The conditional descriptors match the if-start nodes one for one, in order. |
| Scanner.IgnoredTagLeavesNoTrace | template-parser.js:122-132 | A control tag that is none of the recognised directives changes no node list or descriptor list. |
| Scanner.ControlTagAddsNoVariable | template-parser.js:106-107 | A control tag never adds a variable name. |
| Scanner.NoPlaceholderIsText | template-parser.js:73-82 | A template without `{{` scans as one text span, or nothing when it is empty. |
| Scanner.PiecesMissNoTag | template-parser.js:67-120 | The scan misses no placeholder: no literal span holds a `{{`, except a final one that starts with an unclosed `{{`; each tag span starts where the previous span ends. |
| Scanner.ForTagReads | template-parser.js:122-140 | The control tag `% for a in c %` with words `a` and `c` is classified as a loop start with alias `a` and collection `c`. With `IfTagReads`, this states what `Classify` gives for the two header forms. |
| Scanner.IfTagReads | template-parser.js:122-128 | A control tag whose trimmed rest is a one-line `if …` is classified as an if-start whose condition is the text after `if`, trimmed. |
| Scanner.IfMatchReads | template-parser.js:159-164 | The `if` header pattern matches a trimmed one-line `if …` with the text after `if` and its blanks as the one group, which equals the text after `if`, trimmed. |
| Renderer.Placeholder | template-parser.js:202 | The placeholder of a name is four characters longer than it: `{{`, then the name, then `}}`. |
| Renderer.FreeOfPlaceholder | template-parser.js:202 | A text without `{{` holds no placeholder. |
| Renderer.SubstituteWithoutPlaceholders | template-parser.js:200-203 | Pass 1 leaves a text without `{{` unchanged. |
| Renderer.SubstituteOneName | template-parser.js:200-203 | Pass 1 for one name replaces every occurrence of its placeholder by the text of its value. This states `SubstituteVariables` for one name; more names apply it name after name. |
| Renderer.SubstituteAbsentName | template-parser.js:202 | A name whose placeholder does not occur leaves the text unchanged. |
| Renderer.MatchLoopSound | template-parser.js:206 | A loop block that matches is a prefix of the text spelled as `{% for a in c %}`, body, `{% endfor %}` with word `a` and `c`, and the body holds no `{% endfor %}`: the block ends at the first one. |
| Renderer.StringLoopCopies | template-parser.js:207-223 | A loop over a collection that names a string, with a body free of `{{`, gives one copy of the body per character of the string. |
| Renderer.LoopItems | template-parser.js:208-211 | Iteration fails exactly when the collection is an object. |
| Renderer.FieldAtSound | template-parser.js:214 | A loop placeholder that matches is a prefix of the text made of `{{`, a dotted path and `}}`. |
| Renderer.NoLoopWithoutMarker | template-parser.js:206 | No loop block matches where `{%` does not start. |
| Renderer.NoConditionalWithoutMarker | template-parser.js:229 | No conditional block matches where `{%` does not start. |
| Renderer.LoopsWithoutBlocks | template-parser.js:206-226 | Pass 2 leaves a text without `{%` unchanged. |
| Renderer.ConditionalsWithoutBlocks | template-parser.js:229-234 | Pass 3 leaves a text without `{%` unchanged. |
| Renderer.RenderPlainText | template-parser.js:196-237 | A template with neither `{{` nor `{%` renders as itself. `Render` is the three passes in order; `Parser.TemplateParser.Render` returns it. |
| Renderer.ItemTextWithoutFields | template-parser.js:212-221 | A loop body without `{{` is copied unchanged for each element. |
| Renderer.ConcatMapAppend | template-parser.js:211-223 | The copies for two runs of elements are those of the first followed by those of the second. |
| Renderer.ItemsTextRepeat | template-parser.js:211-223 | A body without placeholders is repeated once per element. |
| Renderer.ItemsTextAppend | template-parser.js:211-223 | The loop output for concatenated element lists is the concatenation of their outputs. |
| Renderer.ItemTextAtPlaceholder | template-parser.js:214-221 | A placeholder at the front of the body becomes its field text, followed by the rest of the body. |
| Renderer.AliasField | template-parser.js:216-218 | `{{alias.p}}` reads the property `p` of the element. |
| Renderer.OtherField | template-parser.js:220 | Any other placeholder in a loop body is looked up in the data. |
| Renderer.LoopBlockMatches | template-parser.js:206 | A loop block whose body has no `{% endfor %}` is matched with its alias, collection, body and length. |
| Renderer.LoopBlockExpands | template-parser.js:206-226 | A loop block becomes one copy of its body per element of its collection, or makes render fail when the collection is an object. This states `ExpandLoops` at a block; `LoopsWithoutBlocks` states it on text without blocks. |
| Renderer.MissingCollectionLeavesNothing | template-parser.js:208 | A loop over a missing collection leaves nothing. |
| Renderer.ArrayLoopCopies | template-parser.js:207-226 | A loop over an array yields the element copies in array order. |
| Renderer.MatchIfSound | template-parser.js:229 | A conditional block that matches is a prefix of the text spelled as `{% if cond %}`, body, `{% endif %}` with a non-empty condition. The condition holds no ` %}` and the body no `{% endif %}`: both end at the first marker. |
| Renderer.IfBlockMatches | template-parser.js:229 | A conditional block whose condition has no ` %}` and whose body has no `{% endif %}` is matched with that condition and body. |
| Renderer.IfBlockExpands | template-parser.js:229-234 | A conditional block keeps its body exactly when its condition evaluates to true, and otherwise leaves nothing. This states `ExpandConditionals` at a block; `ConditionalsWithoutBlocks` states it on text without blocks. |
| Renderer.PathHasNoTagEnd | template-parser.js:229 | A dotted path cannot contain ` %}`. |
| Renderer.IfPathBlock | template-parser.js:229-234 | A conditional block on one path keeps its body exactly when the path names a non-empty string or an array. |
| Renderer.SubstituteLoopBody | template-parser.js:200-203 | Pass 1 replaces a placeholder inside a loop block's body before pass 2 sees it. |
| Renderer.LoopFieldBlankedBeforeLoop | template-parser.js:200-226 | A loop body's `{{x.f}}` with no top-level `x.f` in the data renders as empty text, whatever the elements hold. |
| Renderer.LoopFieldReadFromElements | template-parser.js:206-226 | Pass 2 alone would read `{{x.f}}` from each element in turn. |
| Parser.TemplateParser.constructor | template-parser.js:2-8 | A new parser has empty fields. |
| Parser.TemplateParser.Parse | template-parser.js:10-30 | The fields hold the defaults of the block and the scan of the rest of the template. The result reports them, with each variable name once and exactly the names of the variable tags. |
| Parser.TemplateParser.ParseDefaultsSection | template-parser.js:32-65 | Returns the template without the defaults block. Writes the block's entries over the defaults map, and changes no other field. |
| Parser.TemplateParser.ParseDefaultsLine | template-parser.js:44-61 | A defining line writes its key and value over the map; any other line changes nothing. |
| Parser.TemplateParser.ParseTemplate | template-parser.js:67-120 | The node list, descriptor lists and variable set grow by what the scan's spans contribute, in order. |
| Parser.TemplateParser.ParseRound | template-parser.js:85-118 | One round from a found `{{`: the fields grow by the spans the scan reads from the cursor, up to the placeholder's end or the end of the template, and the cursor moves forward. |
| Parser.TemplateParser.ParseOpened | template-parser.js:93-118 | From a `{{`: an unclosed one adds the rest of the template as one text node and stops; a closed one adds its span and moves the cursor past `}}`. |
| Parser.TemplateParser.ParsePlaceholder | template-parser.js:103-116 | A tag adds what its span contributes: a control directive, or a variable node and name. |
| Parser.TemplateParser.ParseControlStructure | template-parser.js:122-132 | A control tag adds the nodes and descriptors of its directive and no variable. |
| Parser.TemplateParser.ParseForLoop | template-parser.js:134-157 | A matching `for` header appends a loop descriptor and a loop-start node; otherwise nothing changes. |
| Parser.TemplateParser.ParseIfStatement | template-parser.js:159-179 | A matching `if` header appends a conditional descriptor and an if-start node with the trimmed condition; otherwise nothing changes. For a trimmed one-line `if …` the condition is the text after `if`, trimmed. |
| Parser.TemplateParser.ParseEndBlock | template-parser.js:181-193 | `endfor` appends a loop-end node, else `endif` an if-end node, else nothing changes. |
| Parser.TemplateParser.Render | template-parser.js:196-237 | Returns `Renderer.Render`: the three passes over the current variable set. |
| Parser.TemplateParser.ExpandLoop | template-parser.js:207-226 | The loop callback returns the element copies of the block, or fails for an object collection. |
| Parser.TemplateParser.GetValueFromPath | template-parser.js:239-252 | The walk returns the value the dotted path names, or `undefined`. |

## Left out

- Regular-expression metacharacters in pass 1 are not modelled. The source
  builds `new RegExp('{{' + name + '}}', 'g')` from each variable name, and
  pass 1 is modelled as a literal global replace of `{{name}}`. A name with
  metacharacters changes the pattern in the source. So does `$` in a value,
  which changes the replacement.
- Renderer.Render does not model a variable name that is not a valid
  regular expression once wrapped in braces, such as `a(` or `[x`. There
  `new RegExp` throws a `SyntaxError` and `render` throws, while the model
  returns `Some` text.
- Inherited properties are not modelled. `part in value` also finds
  properties of the prototype chain, so `{{constructor}}` or `x.toString`
  resolve to functions in the source. `Values.Lookup` sees only the data's
  own keys.
- Defaults.ExtractDefaults does not model the key `__proto__`. Assigning it
  on a plain object sets the prototype, and a string value is ignored, so
  the source creates no entry. The model stores it like any other key.
- Positions are counted in Dafny characters. The source counts UTF-16 code
  units, so after a character outside the Basic Multilingual Plane the
  node positions of the source are one higher per such character.
- Scanner.MatchAt is greedy and does not backtrack, unlike the regular
  expressions of `_parseForLoop` and `_parseIfStatement`. On the trimmed
  text that `_parseControlStructure` passes them the two agree: a run gives
  back nothing the next token could use. Only an untrimmed `if` followed by
  nothing but blanks would match in the source and not in the model.
- Array indices in paths are not modelled. `part in value` on an array, and
  the `length` of strings and arrays, are not walked: a path through an
  array or string is `undefined` in the model.
- Numbers, booleans and `null` in the data are not modelled. Values are
  strings, objects and arrays.
- Conditions.EvaluateCondition is weaker than the source: JavaScript's
  `eval` is replaced by a closed grammar. The grammar is one dotted path,
  or two joined by `==`, `!=`, `===` or `!==`. Other text fails, which
  gives false. In the source, other text may evaluate:
  - quoted literals;
  - arithmetic;
  - `&&` and `||`.
- Conditions.Evaluate does not state comparisons in which an operand is an
  array or an object (their `JSON.stringify` literals). Such comparisons
  fail, which gives false.
- `console.warn` in `_evaluateCondition` is left out: it is output only.
- The `module.exports` of the class is left out: it is packaging.
- `app.js` is not part of this model. It is the browser interface: DOM
  events, form building, downloads.
- Pass 2 and pass 3 are pure functions (`Renderer.ExpandLoops` and
  `Renderer.ExpandConditionals`). They are `String.prototype.replace` with a
  callback, a library call. The callback's `for … of` loop is the method
  `Parser.TemplateParser.ExpandLoop`.
- Parser.TemplateParser.ParseControlStructure requires a content starting
  with `%`. The source calls it only after that check.
- Thrown exceptions carry no message. `render` yields `None` where the
  source throws: a loop over an object.
