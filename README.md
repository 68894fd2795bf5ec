# Content-review plugin: text check, location and scan

A Dafny model of the checking core of a Figma plugin that reviews the text
layers of a design for forbidden terms. The plugin receives a
comma-separated list of forbidden terms from its UI. A request picks the
layers to scan: the text layers of the current selection
("revisar-seleccion") or every text layer of the page ("revisar-todo"). Each
of those layers is then checked against the terms (`revisarTexto`), and for
each layer that contains one the plugin reports a record with the node id,
an excerpt of at most 50 characters, the term found and the name of the
enclosing frame, component, instance or group (`getNombreUbicacion`).

`code.ts` is the source that is modelled; `code.js` is its compiled form with
the same logic: `getNombreUbicacion` at code.js:15-27, `revisarTexto` at
code.js:28-42, and the scan loops at code.js:62-84 and code.js:93-111.

Modules:

- `Wrappers` — `Option`, standing for the `string | null` result of the check.
- `JsStrings` — the JavaScript string operations the check uses: `trim`
  (the ECMAScript WhiteSpace and LineTerminator set), `toLowerCase`,
  `split` on one character, and `includes`.
- `TextCheck` — `revisarTexto`. It specifies the check as the function
  `ForbiddenTerm` and proves the search loop `CheckText` equal to it.
  It also proves what the result means: a non-empty configured term that
  occurs in the lower-cased text and is the first such term, or null exactly
  when no term occurs.
- `Location` — `getNombreUbicacion`. The parent chain is a finite sequence of
  (type, name) pairs, nearest parent first. The `while` loop is proved equal
  to the recursive `LocationOf`, and lemmas characterise the result.
- `Scan` — the two scan branches of the message handler:
  - flattening the selection (`CollectTexts`);
  - the scan loop that builds the result records (`ScanLayers`);
  - the excerpt;
  - the messages each request posts to the UI.

  Both loops are proved against `FlatMap`-based specification functions.
  Lemmas then state membership, order and the bound on the number of records.

The specification functions stand for the source's expressions:
- `TextCheck.ForbiddenTerm` for `revisarTexto` (code.ts:23-37);
- `TextCheck.Terms` for the split, map and filter chain (code.ts:26-29);
- `JsStrings.Trim` for `trim()` (code.ts:25);
- `JsStrings.Contains` for `includes` (code.ts:32);
- `Location.LocationOf` for the parent walk (code.ts:9-21).

Their meaning is stated by the lemmas in the table below.

## Model

| member | source | states |
|---|---|---|
| JsStrings.Lower | code.ts:28 | an upper-case ASCII or Latin-1 letter maps to the letter 32 code points higher (A to a, À to à), every other character maps to itself, and no result is upper case |
| JsStrings.ToLower | code.ts:24 | `toLowerCase` keeps the length and lower-cases each character in place |
| JsStrings.ToLowerIdempotent | code.ts:28 | lower-casing a lower-cased string changes nothing |
| JsStrings.LowerKeepsSpacesAndCommas | code.ts:28 | lower-casing neither creates nor removes a white-space character or a comma |
| JsStrings.TrimStartSpec | code.ts:28 | leading trim leaves a suffix, removes only spaces, and what is left does not start with a space |
| JsStrings.TrimEndSpec | code.ts:28 | trailing trim leaves a prefix, removes only spaces, and what is left does not end with a space |
| JsStrings.TrimSpec | code.ts:25 | `trim()` is empty exactly when the string is all white space; otherwise it starts and ends with a non-space, and all its characters come from the input |
| JsStrings.TrimOfTrimmed | code.ts:28 | a string without white space at its ends is its own trim |
| JsStrings.ToLowerTrimmed | code.ts:28 | lower-casing a trimmed string leaves it trimmed |
| JsStrings.Split | code.ts:27 | `split(',')` always yields at least one piece (the empty string gives one empty piece) |
| JsStrings.SplitPiecesSeparatorFree | code.ts:27 | no piece of a split contains the separator |
| JsStrings.JoinSplit | code.ts:27 | joining the pieces with the separator gives the original string back |
| JsStrings.SplitSeparatorFree | code.ts:27 | a string without the separator splits into itself alone |
| JsStrings.SplitAfterPiece | code.ts:27 | a separator-free piece followed by the separator splits off as the first piece, with the rest split as before |
| JsStrings.SplitJoin | code.ts:27 | splitting a join of separator-free pieces gives the same pieces in the same order |
| TextCheck.DropEmptyMembership | code.ts:29 | the `length > 0` filter keeps exactly the non-empty terms |
| TextCheck.DropEmptyAppend | code.ts:29 | the filter keeps order: filtering a concatenation gives the kept terms of the first part followed by those of the second |
| TextCheck.TermsMembership | code.ts:26-29 | a term is configured exactly when it is the non-empty trimmed, lower-cased form of one of the comma-separated pieces |
| TextCheck.NormalizeIsNormal | code.ts:28 | the trimmed, lower-cased form of a comma-free piece has no comma and is already trimmed and lower-cased |
| TextCheck.TermsAreNormalized | code.ts:26-29 | every configured term is non-empty, comma-free, trimmed and lower-cased |
| TextCheck.TermsCons | code.ts:26-29 | the terms keep the order of the pieces: the first piece's term (when not empty) comes before the terms of the rest |
| TextCheck.TermsOfThree | code.ts:26-29 | three comma-free pieces give their normal forms, in order, with the empty ones dropped |
| TextCheck.BlankConfigurationHasNoTerms | code.ts:25 | a blank configuration has no terms, so the early null return agrees with the search over an empty list |
| TextCheck.BlankExamples | code.ts:25-29 | `""` and `"  ,, "` configure no term |
| TextCheck.MixedCaseExample | code.ts:26-29 | `"Foo, bar ,BAZ"` configures `foo`, `bar`, `baz` in that order |
| TextCheck.FirstMatchSpec | code.ts:31-36 | the search returns a listed term that the text includes, and returns null exactly when the text includes no listed term |
| TextCheck.FirstMatchIsFirst | code.ts:31-35 | the search returns t exactly when t is at some position of the list, the text includes it, and the text includes no earlier term |
| TextCheck.CheckText | code.ts:23-37 | the guard and the early-return loop of `revisarTexto` compute the first configured term found in the lower-cased characters, or null for an empty or blank configuration |
| TextCheck.ForbiddenTermIsFirstMatch | code.ts:23-37 | for every configuration, including the blank ones the guard handles, the check is the first-match search over the configured terms |
| TextCheck.ForbiddenTermSpec | code.ts:26-36 | a non-null result is a non-empty configured term that occurs in the lower-cased text and no earlier term occurs; the result is null exactly when no configured term occurs |
| TextCheck.CaseInsensitive | code.ts:24 | the check gives the same answer for a text and its lower-cased form |
| Location.LocationName | code.ts:9-21 | the walk up the parent chain returns `LocationOf` of the chain, ending on a finite chain |
| Location.LocationIsNearestContainer | code.ts:11-18 | when the k-th ancestor is a frame, component, instance or group and nothing below it is a container or a page, the result is its name |
| Location.LocationDefaultsPastPage | code.ts:15-20 | when every container on the chain lies above a page, or there is none (no parent included), the result is "Canvas Principal" |
| Location.LocationIsContainerName | code.ts:9-21 | the result is "Canvas Principal" or the name of a container ancestor with no page below it |
| Location.LocationStopsAtPage | code.ts:15-17 | nothing above the first page affects the result: the chain cut just after its first page gives the same location |
| Scan.Excerpt | code.ts:80 | the excerpt has length min(50, text length), each position holds the text's character with a line feed turned into a space, and it holds no line feed |
| Scan.ShortLineIsOwnExcerpt | code.ts:80 | a text of at most 50 characters without line feeds is its own excerpt |
| Scan.TruthyIsFound | code.ts:77 | `if (error)` holds exactly when the check found a term, because a found term is never empty |
| Scan.CollectTexts | code.ts:62-72 | the selection loop builds the flattened list of text layers: a text node itself, a container's text descendants, nothing for other nodes |
| Scan.TextsOfAppend | code.ts:65-72 | flattening keeps selection order: two parts of a selection flatten to the first part's texts followed by the second's |
| Scan.TextsOfMembership | code.ts:65-72 | a layer is analysed exactly when it is selected itself or is a text descendant of a selected container |
| Scan.ScanLayers | code.ts:74-85 | the scan loop builds the records of the layers whose check is truthy, each with the location found by the parent walk |
| Scan.RecordsOfLayer | code.ts:76-84 | a layer contributes exactly one record, with its id, excerpt, term and location, when its check finds a term, and none otherwise |
| Scan.ScanOfOneLayer | code.ts:75-85 | scanning a single matching layer gives that layer's record |
| Scan.ScanAppend | code.ts:75-85 | records keep layer order: scanning two lists in sequence gives the first list's records followed by the second's |
| Scan.ScanMembership | code.ts:99-108 | a record is reported exactly when it is the record of a scanned layer whose check returned the record's term |
| Scan.ScanAtMostOnePerLayer | code.ts:99-108 | there are at most as many records as scanned layers |
| Scan.SelectionOverlapRepeats | code.ts:65-85 | a text layer selected together with a container that holds it is analysed twice and reported twice |
| Scan.SpamExample | code.ts:74-85 | one layer "This is spam content" with configuration "spam" gives one record holding the whole text, the term "spam" and "Canvas Principal" |
| Scan.ReviewSelection | code.ts:48-89 | an empty selection posts only an empty result list with the selection message; otherwise "scan-iniciado" and then the scan of the flattened selection |
| Scan.ReviewPage | code.ts:91-119 | "revisar-todo" posts "scan-iniciado" and then the scan of the page's text layers |

## Left out

- JsStrings.ToLower: `toLowerCase` is modelled for ASCII and Latin-1 upper-case letters only; the other Unicode case mappings, including the ones that change length, are not modelled.
- Scan.Excerpt: a character is a Unicode code point, not a UTF-16 code unit. `substring(0, 50)` counts code units, so for a text with characters outside the Basic Multilingual Plane (an emoji, say) the source's excerpt is shorter than the model's and may end in half a surrogate pair.
- The `prohibidos` field is modelled as a string. An absent (`undefined` or `null`) value fails the `!prohibidosString` guard just as `""` does, so it is represented by the empty configuration.
- Host traversal is given as input. The selection's container descendants (`findAll(n => n.type === 'TEXT')`) and the page's text layers (`figma.currentPage.findAll`) are input sequences in traversal order. A container is any selected node with `findAll`.
- The parent chain is given as a finite sequence. A cyclic parent chain cannot arise in the host and is not modelled.
- UI transport is left out: `figma.showUI`, `figma.ui.postMessage` (modelled as the list of messages a request posts) and the "ir-a-nodo" request (`getNodeByIdAsync`, viewport scrolling, selection assignment). These are host I/O with no checking logic.
- The `esperar` delays (100 ms, 1000 ms and 0 ms) and the `seguimientoActivo` flag are left out. This includes the "actualizar-seguimiento" request and the per-layer scrolling in "revisar-todo". Each layer's characters are taken as one fixed input. In the source every `await esperar(...)` yields to the event loop before a later layer's `characters` are read, so edits made to the document during the waits can reach later records; the model does not capture such edits.
- The `__awaiter` helper in code.js is compiler-emitted async plumbing.
- types.d.ts holds only ambient declarations.
