# EcoSpark chatbot service — verified model of its deterministic core

The EcoSpark backend answers shoppers' questions about eco-friendly products
with a retrieval-augmented chatbot. Around the language-model calls, its
chatbot service (`src/api/chatbot/services/chatbot.ts`) does three things
by itself, and these are modelled and proved here:

- **Product flattener** (`populateVectorStore`). Every catalog product
  becomes one LangChain document. The service fills a JavaScript object with
  the core fields `id, name, description, brand, category, price`, then
  assigns every specification and then every eco attribute. Boolean values
  become "Yes"/"No". The eco attributes follow a priority chain:
  `recycled_materials` is joined with ", ", else a boolean becomes Yes/No,
  else `carbon_footprint` gets " kg CO2", else the raw value is kept. The
  object's entries are rendered as `key: value` lines joined by newlines,
  with the source tag `product[<id>]`.
- **History normaliser** (`processMessage`). An empty chat history becomes
  one AI greeting. Any other history becomes one human or AI message per
  turn, in order.
- **Response post-processor** (`extractProductsFromResponse`). It finds
  every marker `\s?\(product[_ ]id:\s*(\d+)\)` in the model's answer. For
  each marker it removes the first occurrence of the marker's text from the
  message and records the parsed id. The ids are then de-duplicated in
  first-seen order, and the matching catalog products are returned.

Modules:

- `JsText`: the JavaScript `\s` and digit classes, integer rendering,
  `parseInt` on digit strings and `join`. The service never splits a
  string; `Split` is there only to state that the joined page content
  reads back line by line (`SplitJoin`, `DocumentLines`).
- `JsCollections`: `[...new Set(xs)]` (`Dedup`), and a JavaScript object as
  an insertion-ordered association list (`Dict`, `Assign`, `AssignAll`).
- `Catalog`: the product record, attribute values, template-literal
  rendering, and `getProductsByIds` as a filter over a catalog parameter.
- `Flattener`: the specification function `FlatDict`, the two loops as
  methods proved against it, and the rendering into documents.
- `FlattenerProperties`: what the flattener promises.
- `History`: the history mapping.
- `Markers`: a matcher for the marker pattern, proved against a
  declarative grammar (`IsMarker`).
- `PostProcessor`: the removal loop as a method, proved against
  `RemoveEach`, plus a worked example.

JavaScript TypeErrors are modelled as `Err` results:

- reading `.name` of a missing brand or category;
- calling `.join` on a `recycled_materials` value that is not an array.

A `map` whose callback throws loses the whole list. `Collect` models this:
the first error aborts.

## Model

| member | source | states |
|---|---|---|
| Flattener.FlattenProduct | src/api/chatbot/services/chatbot.ts:42-69 | The object literal followed by the specification and eco loops yields exactly `FlatDict(p)`: the flattened object, or the TypeError the code raises |
| Flattener.AssignSpecifications | src/api/chatbot/services/chatbot.ts:51-57 | The specification loop assigns every specification in order, booleans as "Yes"/"No", into the object |
| Flattener.AssignEcoData | src/api/chatbot/services/chatbot.ts:58-68 | The eco loop assigns every eco attribute by the priority chain; it fails with the first attribute's TypeError exactly when the specification says so |
| Flattener.CoreDict | src/api/chatbot/services/chatbot.ts:43-50 | The object literal, or the TypeError of reading `.name` of a missing brand (checked first) or category; its keys and values are stated by `FlattenerProperties.CoreKeysOf` and `FlattenerProperties.FlatCoreValues` |
| Flattener.SpecValue | src/api/chatbot/services/chatbot.ts:52-56 | A specification value never stays a boolean: it changes exactly when it is a boolean, into "Yes" for true and "No" for false |
| Flattener.EcoValue | src/api/chatbot/services/chatbot.ts:59-67 | The value an eco attribute gets fails exactly for a `recycled_materials` value that is not an array, and is never a boolean; `FlattenerProperties.FlatEcoValue` states the chain |
| Flattener.EcoEntries | src/api/chatbot/services/chatbot.ts:58-68 | The eco loop's assignments, one per attribute, under the attribute's name, in order, or the first TypeError |
| Flattener.FlatDict | src/api/chatbot/services/chatbot.ts:43-68 | The flattened object: the literal, then every specification, then every eco attribute assigned in order; specification function for `FlattenProduct`, whose properties are the `FlattenerProperties` rows |
| Flattener.Line | src/api/chatbot/services/chatbot.ts:73 | One `${key}: ${value}` line; `DocumentLines` proves the lines read back |
| Flattener.PageContent | src/api/chatbot/services/chatbot.ts:72-74 | The entries' lines joined by "\n"; `DocumentLines` proves splitting gives the lines back |
| Flattener.SourceTag | src/api/chatbot/services/chatbot.ts:78 | `product[${p.id}]` with `id` read back from the flattened object; `DocumentSource` states its value |
| Flattener.ProductDocument | src/api/chatbot/services/chatbot.ts:71-80 | The document of one product, or its TypeError; `DocumentsPerProduct` relates it to the list |
| Flattener.Collect | src/api/chatbot/services/chatbot.ts:41-81 | `map` with a throwing callback: all results in order, or the first error; `FlattenerProperties.CollectOk` and `FlattenerProperties.CollectFirstError` state both |
| Flattener.ProductDocuments | src/api/chatbot/services/chatbot.ts:41-81 | The whole document list; `DocumentsPerProduct` and `DocumentsFirstError` state it |
| Flattener.EcoErrorPersists | src/api/chatbot/services/chatbot.ts:58-61 | Once an eco attribute has thrown, the remaining attributes do not change the outcome |
| FlattenerProperties.FlattenSucceeds | src/api/chatbot/services/chatbot.ts:43-68 | Flattening succeeds iff the brand and category are present and every `recycled_materials` value is an array; a missing brand or category gives its own error |
| FlattenerProperties.EcoEntriesShape | src/api/chatbot/services/chatbot.ts:58-68 | The eco assignments succeed iff every `recycled_materials` value is an array; then there is one assignment per eco attribute, in order, under the attribute's name |
| FlattenerProperties.CoreKeysOf | src/api/chatbot/services/chatbot.ts:43-50 | The object literal has exactly the keys id, name, description, brand, category, price, once each |
| FlattenerProperties.FlatKeys | src/api/chatbot/services/chatbot.ts:43-68 | The flattened object's keys are the core keys, then the specification names, then the eco names, each kept only at its first position; no key repeats, and the first six keys are the core keys in order |
| FlattenerProperties.FlatNoBooleans | src/api/chatbot/services/chatbot.ts:51-68 | No value of the flattened object is a boolean, so no boolean value is ever rendered as "true" or "false" (a string "true" is still stored and rendered as it is) |
| FlattenerProperties.FlatSpecValue | src/api/chatbot/services/chatbot.ts:51-57 | A specification whose name is not assigned again stores "Yes"/"No" for a boolean and its own value otherwise |
| FlattenerProperties.FlatEcoValue | src/api/chatbot/services/chatbot.ts:58-68 | An eco attribute whose name is not assigned again stores the value of the first rule that applies: the ", "-join for `recycled_materials` (which must be an array, even when its value is a boolean), else "Yes"/"No" for a boolean, else `"<value> kg CO2"` for `carbon_footprint`, else the raw value |
| FlattenerProperties.FlatCoreValue | src/api/chatbot/services/chatbot.ts:43-50 | A core key that no attribute reuses keeps the value the object literal gave it |
| FlattenerProperties.FlatCoreValues | src/api/chatbot/services/chatbot.ts:43-50 | A flattened product has a brand and a category, and each core key no attribute reuses holds its field: the id, the name, the description (null when unset), the brand's name, the category's name, and `"<price> USD"` |
| FlattenerProperties.DocumentSource | src/api/chatbot/services/chatbot.ts:75-79 | Unless an attribute is named "id", the source tag is `product[<id>]`, and the digits between its brackets parse back to the product id |
| FlattenerProperties.DocumentLines | src/api/chatbot/services/chatbot.ts:71-74 | When no key or value contains a newline, splitting the page content at newlines gives back the `key: value` lines of the entries in order, at least six of them |
| FlattenerProperties.DocumentsPerProduct | src/api/chatbot/services/chatbot.ts:41-81 | The document list exists iff every product flattens; then there is one document per product, in order, each that product's document |
| FlattenerProperties.CollectOk | src/api/chatbot/services/chatbot.ts:41-81 | A throwing `map` succeeds iff every element does, and then keeps every value in order |
| FlattenerProperties.CollectFirstError | src/api/chatbot/services/chatbot.ts:41-81 | A failed `map` fails with the error of the first element that throws, every earlier one succeeding |
| FlattenerProperties.DocumentsFirstError | src/api/chatbot/services/chatbot.ts:41-81 | A failing document list fails with the error of the first product that throws |
| History.ToMessage | src/api/chatbot/services/chatbot.ts:167-169 | A turn keeps its text and is a human message exactly when its role is "user" |
| History.MapTurns | src/api/chatbot/services/chatbot.ts:166-170 | One message per turn, in order, with the turn's text; human exactly when the role is "user" |
| History.NormaliseHistory | src/api/chatbot/services/chatbot.ts:163-170 | An empty history becomes exactly one AI greeting; any other history keeps its length, order and texts, human iff the role is "user"; the result is never empty |
| Markers.SkipSpaces | src/api/chatbot/services/chatbot.ts:176 | The greedy `\s*`: the longest run of JavaScript whitespace from a position |
| Markers.SkipDigits | src/api/chatbot/services/chatbot.ts:176 | The greedy `\d+` scan: the longest run of digits from a position |
| Markers.CoreAt | src/api/chatbot/services/chatbot.ts:176 | `\(product[_ ]id:\s*(\d+)\)` tried at one position: a match starts there, is at least 14 characters long, lies within the text and ends with its digit group followed by `)`; `CoreAtSound` and `CoreAtComplete` tie it to the grammar |
| Markers.MatchAt | src/api/chatbot/services/chatbot.ts:176 | The whole pattern, with its optional leading white space, tried at one position: a match starts there, is at least 14 characters long and lies within the text |
| Markers.FindMatches | src/api/chatbot/services/chatbot.ts:176-178 | `matchAll` from a position: every match lies after it and within the text; `FindMatchesSound` and `FindMatchesComplete` state order, non-overlap and completeness |
| Markers.MatchAtSound | src/api/chatbot/services/chatbot.ts:176 | What the matcher finds at a position is a marker of the grammar, and its id is the value of the whole `\d+` group: a run of digits preceded by a non-digit and followed by `)` |
| Markers.MatchAtComplete | src/api/chatbot/services/chatbot.ts:176 | Wherever a marker of the grammar starts, the matcher finds a match there |
| Markers.FindMatchesSound | src/api/chatbot/services/chatbot.ts:176-178 | Every match `matchAll` yields is a match at its own start; the matches are in left-to-right order and do not overlap |
| Markers.FindMatchesComplete | src/api/chatbot/services/chatbot.ts:176-178 | Every position where a marker starts lies inside one of the matches |
| Markers.NoMatches | src/api/chatbot/services/chatbot.ts:176-178 | There is no match iff no substring of the text is a marker |
| Markers.RecordedIds | src/api/chatbot/services/chatbot.ts:179-182 | One id per match, in order; each is `parseInt` of that match's whole digit group: a run of digits inside the match, preceded by a non-digit and followed by its `)` |
| Markers.MatchedTexts | src/api/chatbot/services/chatbot.ts:179-181 | `match[0]` of each match is the slice of the original text it spans, and that slice is a marker |
| PostProcessor.FirstOccurrence | src/api/chatbot/services/chatbot.ts:181 | The leftmost position at or after a start where the text occurs, or none if it does not occur |
| PostProcessor.RemoveFirst | src/api/chatbot/services/chatbot.ts:181 | `replace(str, '')` leaves the text unchanged when `str` does not occur; otherwise it deletes only the first occurrence and keeps everything else |
| PostProcessor.RemoveEachShortens | src/api/chatbot/services/chatbot.ts:177-183 | The removals never lengthen the message, and they shorten it when the first removed text is non-empty and occurs |
| PostProcessor.RemoveEach | src/api/chatbot/services/chatbot.ts:177-183 | The message after the loop: the first occurrence of each text removed in turn; `ExtractProductIds` is proved equal to it and `RemoveEachShortens` bounds it |
| PostProcessor.ExtractProductIds | src/api/chatbot/services/chatbot.ts:176-184 | The loop removes the first occurrence of each match's text in turn, and returns the de-duplicated recorded ids; text without a marker comes back unchanged with no ids; a text with a match comes back shorter |
| PostProcessor.ExtractProductsFromResponse | src/api/chatbot/services/chatbot.ts:175-187 | Returns the cleaned message and exactly the catalog products whose id was recorded |
| PostProcessor.MarkerRecordsId | src/api/chatbot/services/chatbot.ts:176-183 | When the response is exactly the marker `(product_id:<id>)` written with a product's id, it records exactly that id and the message comes back empty |
| PostProcessor.ExampleMatches | src/api/chatbot/services/chatbot.ts:176 | In `(product_id:7) (product id:3)(product_id:7)` there are three matches; the second includes its leading space |
| PostProcessor.ExampleIds | src/api/chatbot/services/chatbot.ts:179-184 | Markers for 7, 3, 7 record [7, 3, 7] and de-duplicate to [7, 3] |
| PostProcessor.ExampleTexts | src/api/chatbot/services/chatbot.ts:179-181 | The three removed texts of the example, the second with its space |
| PostProcessor.ExampleMessage | src/api/chatbot/services/chatbot.ts:177-183 | Removing the example's three markers leaves the empty message |
| JsCollections.Dedup | src/api/chatbot/services/chatbot.ts:184 | `[...new Set(xs)]` has no repeats and exactly the elements of `xs` |
| JsCollections.DedupFirstSeenOrder | src/api/chatbot/services/chatbot.ts:184 | The de-duplicated elements appear in the order of their first occurrence |
| JsCollections.DedupDistinct | src/api/chatbot/services/chatbot.ts:184 | A list without repeats is left unchanged |
| JsCollections.DedupExtends | src/api/chatbot/services/chatbot.ts:184 | De-duplicating a prefix gives a prefix of the de-duplicated list |
| JsCollections.Lookup | src/api/chatbot/services/chatbot.ts:78 | Reading a property gives a value exactly when the key is present; `LookupAt` says which |
| JsCollections.AssignAll | src/api/chatbot/services/chatbot.ts:51-68 | A run of `obj[k] = v` assignments in order; `AssignAllKeys`, `AssignAllUntouched` and `AssignAllLastWrite` state its keys and values |
| JsCollections.Assign | src/api/chatbot/services/chatbot.ts:53-66 | `obj[k] = v` on an existing key replaces that entry in place; on a new key it appends an entry at the end |
| JsCollections.AssignLookup | src/api/chatbot/services/chatbot.ts:53-66 | After `obj[k] = v`, reading `k` gives `v`, every other key reads as before, and keys stay unique |
| JsCollections.AssignAllKeys | src/api/chatbot/services/chatbot.ts:51-68 | A run of assignments leaves the keys in first-insertion order, each once |
| JsCollections.AssignAllUntouched | src/api/chatbot/services/chatbot.ts:51-68 | A key no assignment names keeps its value |
| JsCollections.AssignAllLastWrite | src/api/chatbot/services/chatbot.ts:51-68 | A key reads the value of the last assignment to it |
| JsCollections.AssignAllAppend | src/api/chatbot/services/chatbot.ts:51-68 | Running the specification loop and then the eco loop is one run over both lists |
| JsCollections.AssignAllValues | src/api/chatbot/services/chatbot.ts:51-68 | A property every initial and assigned value has is held by every value of the result |
| Catalog.Text | src/api/chatbot/services/chatbot.ts:73 | `${v}` of a value: strings as they are, integers in decimal, booleans as "true"/"false", arrays joined by ",", "null" and "undefined" |
| Catalog.ProductsByIds | src/api/chatbot/services/chatbot.ts:143-152 | The products returned are exactly the catalog rows whose id is listed, none invented |
| JsText.IntText | src/api/chatbot/services/chatbot.ts:49 | The decimal text of an integer is non-empty, starts with a digit for non-negative values and with "-" for negative ones |
| JsText.ParseDigits | src/api/chatbot/services/chatbot.ts:182 | `parseInt` of a run of decimal digits, leading zeros allowed; `ParseNatText` and `NatTextParse` relate it to rendering |
| JsText.ParseNatText | src/api/chatbot/services/chatbot.ts:182 | `parseInt` of a number's decimal text gives the number back |
| JsText.NatTextParse | src/api/chatbot/services/chatbot.ts:182 | A digit string without leading zeros is the decimal text of its parsed value; with `ParseNatText`, rendering and `parseInt` are inverse between ids and such numerals, so two markers whose digit groups have no leading zeros record the same id iff the groups are equal (while "007" and "7" both record 7) |
| JsText.SplitJoin | src/api/chatbot/services/chatbot.ts:72-74 | Joining lines with a separator none of them contains, then splitting at it, gives the lines back |

## Left out

- The language-model and vector pipeline is not modelled: the Gemini/Vertex models, the LangChain chains, prompt templates, embeddings and the in-memory vector store search (chatbot.ts lines 24-39, 83, 86-141). These are foreign library calls, network I/O and floating-point vectors.
- Database access is not modelled. The catalog read of `populateVectorStore` (lines 32-35) is replaced by the product list as a parameter. `getProductsByIds` (lines 143-152) becomes `Catalog.ProductsByIds` over a catalog parameter.
- Catalog.ProductsByIds: the database does not promise an order for `$in` results. The model returns catalog order and states only which products are returned. So markers for 7, 3, 7 give the ids [7, 3], but not necessarily the products in that order.
- Numbers are integers. Float prices and carbon footprints, and JavaScript's number-to-string formatting of them, are not modelled. JsText.IntText writes every integer in full decimal, whereas JavaScript switches to exponent form from 1e21 on ("1e+21").
- JsText.ParseNatText: `parseInt` is exact here; its precision loss above 2^53 is not modelled.
- JSON values beyond strings, integers, booleans, arrays of strings and `null` are not modelled: objects and nested arrays. An array renders joined by ",", as a template literal does.
- An unset description is taken to come back from the database as `null`, rendering "description: null". A record whose description property is missing altogether would render "undefined" instead.
- A JavaScript object lists integer-like keys first, and `__proto__` is special. Attribute names are taken as ordinary keys, so insertion order holds.
- FlatSpecValue, FlatEcoValue, FlatCoreValues and DocumentSource assume that the name is not assigned again later. When it is, the last assignment wins; `JsCollections.AssignAllLastWrite` states that case.
- The controller's input validation, the Koa error responses, the route table, the seeder and the REPL client are not part of this model.
- The `processMessage` call into the conversational chain (line 171) and its returned text are not modelled; only the history handed to it is.
