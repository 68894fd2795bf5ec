/**
  * The two scan requests of the plugin's message handler: "revisar-seleccion"
  * (the text layers of the current selection) and "revisar-todo" (every text
  * layer of the page). Each checks its layers one by one and reports, in
  * layer order, one result record per layer whose check finds a term.
  */
module Scan {
  import opened Wrappers
  import opened JsStrings
  import opened TextCheck
  import opened Location

  /** A text layer as the scan reads it: node id, characters, and its
      ancestors from the parent upwards. */
  datatype TextLayer = TextLayer(id: string, characters: string, ancestors: seq<Ancestor>)

  /** A node of the current selection. A container is any node that has
      `findAll`; `texts` is what `findAll(n => n.type === 'TEXT')` gives,
      in traversal order. Every other node is OtherNode. */
  datatype SelectedNode =
    | TextNode(layer: TextLayer)
    | ContainerNode(kind: string, texts: seq<TextLayer>)
    | OtherNode(kind: string)

  /** One entry of `errores`: `nodeId`, `texto`, `error`, `ubicacion`. */
  datatype MatchResult = MatchResult(nodeId: string, excerpt: string, term: string, location: string)

  /** The messages the handler posts to the UI during a scan. */
  datatype UiMessage =
    | ScanStarted
    | ScanFinished(errors: seq<MatchResult>, message: Option<string>)

  const ExcerptLength: nat := 50
  const EmptySelectionMessage: string := "Debes seleccionar al menos un frame o texto."

  /** `.replace(/\n/g, ' ')`. */
  function ReplaceNewlines(s: string): string {
    seq(|s|, i requires 0 <= i < |s| => if s[i] == '\n' then ' ' else s[i])
  }

  /** `characters.substring(0, 50).replace(/\n/g, ' ')`: the first 50
      characters (all of them when there are fewer), each line feed turned
      into a space and every other character kept in its place. */
  function Excerpt(characters: string): (e: string)
    ensures |e| == if |characters| < ExcerptLength then |characters| else ExcerptLength
    ensures forall i :: 0 <= i < |e| ==>
              e[i] == if characters[i] == '\n' then ' ' else characters[i]
    ensures '\n' !in e
  {
    var end := if |characters| < ExcerptLength then |characters| else ExcerptLength;
    ReplaceNewlines(characters[..end])
  }

  /** The record pushed for a layer whose check returned term. */
  function Record(layer: TextLayer, term: string): MatchResult {
    MatchResult(layer.id, Excerpt(layer.characters), term, LocationOf(layer.ancestors))
  }

  /** `if (error)`: a JavaScript string is truthy when it is not null and not empty. */
  predicate Truthy(r: Option<string>) {
    r.Some? && r.value != ""
  }

  /** The records a single layer contributes: one when its check is truthy. */
  function RecordsOf(layer: TextLayer, config: string): seq<MatchResult> {
    var r := ForbiddenTerm(layer.characters, config);
    if Truthy(r) then [Record(layer, r.value)] else []
  }

  /** `erroresEncontrados` after the loop over layers. */
  function ScanResults(layers: seq<TextLayer>, config: string): seq<MatchResult> {
    FlatMap(layers, layer => RecordsOf(layer, config))
  }

  /** What a selected node adds to `textosAAnalizar`. */
  function TextsOfNode(node: SelectedNode): seq<TextLayer> {
    match node
    case TextNode(layer) => [layer]
    case ContainerNode(_, texts) => texts
    case OtherNode(_) => []
  }

  /** `textosAAnalizar` after the loop over the selection. */
  function TextsOf(selection: seq<SelectedNode>): seq<TextLayer> {
    FlatMap(selection, TextsOfNode)
  }

  /** The loop that builds `textosAAnalizar`: a text node is pushed itself,
      a container pushes its text descendants, anything else adds nothing. */
  method CollectTexts(selection: seq<SelectedNode>) returns (texts: seq<TextLayer>)
    ensures texts == TextsOf(selection)
  {
    texts := [];
    for i := 0 to |selection|
      invariant texts == TextsOf(selection[..i])
    {
      var node := selection[i];
      assert selection[..i + 1][..i] == selection[..i];
      if node.TextNode? {
        texts := texts + [node.layer];
      } else if node.ContainerNode? {
        texts := texts + node.texts;
      }
    }
    assert selection[..|selection|] == selection;
  }

  /** The loop that builds `erroresEncontrados`: each layer is checked, and
      a truthy result pushes its record with the layer's location. */
  method ScanLayers(layers: seq<TextLayer>, config: string) returns (errors: seq<MatchResult>)
    ensures errors == ScanResults(layers, config)
  {
    errors := [];
    for i := 0 to |layers|
      invariant errors == ScanResults(layers[..i], config)
    {
      var layer := layers[i];
      assert layers[..i + 1][..i] == layers[..i];
      var error := CheckText(layer.characters, config);
      if error.Some? && error.value != "" {
        var location := LocationName(layer.ancestors);
        errors := errors + [MatchResult(layer.id, Excerpt(layer.characters), error.value, location)];
      }
    }
    assert layers[..|layers|] == layers;
  }

  /** The "revisar-seleccion" request: an empty selection is answered with an
      empty list and a message and nothing is scanned; otherwise the scan
      is announced, the selection flattened and its layers scanned. */
  method ReviewSelection(selection: seq<SelectedNode>, config: string) returns (posted: seq<UiMessage>)
    ensures |selection| == 0 ==> posted == [ScanFinished([], Some(EmptySelectionMessage))]
    ensures |selection| > 0 ==>
              posted == [ScanStarted, ScanFinished(ScanResults(TextsOf(selection), config), None)]
  {
    if |selection| == 0 {
      return [ScanFinished([], Some(EmptySelectionMessage))];
    }
    posted := [ScanStarted];
    var texts := CollectTexts(selection);
    var errors := ScanLayers(texts, config);
    posted := posted + [ScanFinished(errors, None)];
  }

  /** The "revisar-todo" request over the page's text layers, as
      `figma.currentPage.findAll` lists them. */
  method ReviewPage(pageTexts: seq<TextLayer>, config: string) returns (posted: seq<UiMessage>)
    ensures posted == [ScanStarted, ScanFinished(ScanResults(pageTexts, config), None)]
  {
    posted := [ScanStarted];
    var errors := ScanLayers(pageTexts, config);
    posted := posted + [ScanFinished(errors, None)];
  }

  /** A term the check returns is never empty, so `if (error)` tests
      exactly whether the check found a term. */
  lemma TruthyIsFound(characters: string, config: string)
    ensures Truthy(ForbiddenTerm(characters, config)) <==> ForbiddenTerm(characters, config).Some?
  {
    ForbiddenTermSpec(characters, config);
  }

  /** What a loop that pushes the contribution of each element of xs, in
      order, has built at its end. */
  function FlatMap<A, B>(xs: seq<A>, f: A -> seq<B>): seq<B> {
    if xs == [] then [] else FlatMap(xs[..|xs| - 1], f) + f(xs[|xs| - 1])
  }

  lemma {:induction false} FlatMapAppend<A, B>(a: seq<A>, b: seq<A>, f: A -> seq<B>)
    ensures FlatMap(a + b, f) == FlatMap(a, f) + FlatMap(b, f)
  {
    if b != [] {
      assert (a + b)[..|a + b| - 1] == a + b[..|b| - 1];
      FlatMapAppend(a, b[..|b| - 1], f);
    } else {
      assert a + b == a;
    }
  }

  lemma {:induction false} FlatMapMembership<A, B>(xs: seq<A>, f: A -> seq<B>, y: B)
    ensures y in FlatMap(xs, f) <==> exists x :: x in xs && y in f(x)
  {
    if xs != [] {
      var n := |xs| - 1;
      var front := xs[..n];
      FlatMapMembership(front, f, y);
      if y in FlatMap(xs, f) {
        if y in FlatMap(front, f) {
          var x :| x in front && y in f(x);
          var i :| 0 <= i < n && front[i] == x;
          assert xs[i] == x;
        } else {
          assert xs[n] in xs && y in f(xs[n]);
        }
      }
      if exists x :: x in xs && y in f(x) {
        var x :| x in xs && y in f(x);
        var i :| 0 <= i <= n && xs[i] == x;
        if i < n {
          assert front[i] == x;
        }
      }
    }
  }

  lemma FlatMapSingle<A, B>(x: A, f: A -> seq<B>)
    ensures FlatMap([x], f) == f(x)
  {
    assert [x][..0] == [];
  }

  lemma {:induction false} FlatMapAtMostOneEach<A, B>(xs: seq<A>, f: A -> seq<B>)
    requires forall x :: x in xs ==> |f(x)| <= 1
    ensures |FlatMap(xs, f)| <= |xs|
  {
    if xs != [] {
      FlatMapAtMostOneEach(xs[..|xs| - 1], f);
    }
  }

  /** A layer contributes exactly one record when its check finds a term t,
      and that record carries the layer's id, excerpt and location and t. */
  lemma RecordsOfLayer(layer: TextLayer, config: string)
    ensures var r := ForbiddenTerm(layer.characters, config);
            RecordsOf(layer, config) ==
              if r.Some?
              then [MatchResult(layer.id, Excerpt(layer.characters), r.value, LocationOf(layer.ancestors))]
              else []
  {
    TruthyIsFound(layer.characters, config);
  }

  /** Scanning a single layer whose check finds t reports that layer's record for t. */
  lemma ScanOfOneLayer(layer: TextLayer, config: string, t: string)
    requires ForbiddenTerm(layer.characters, config) == Some(t)
    ensures ScanResults([layer], config) == [Record(layer, t)]
  {
    RecordsOfLayer(layer, config);
    FlatMapSingle(layer, l => RecordsOf(l, config));
  }

  /** Scanning two lists of layers one after the other gives the records of
      the first followed by those of the second: records keep layer order. */
  lemma ScanAppend(a: seq<TextLayer>, b: seq<TextLayer>, config: string)
    ensures ScanResults(a + b, config) == ScanResults(a, config) + ScanResults(b, config)
  {
    FlatMapAppend(a, b, layer => RecordsOf(layer, config));
  }

  /** m is the record reported for layer: the layer's check found m's term
      and m is that layer's record for it. */
  predicate Reports(layer: TextLayer, config: string, m: MatchResult) {
    ForbiddenTerm(layer.characters, config) == Some(m.term) && m == Record(layer, m.term)
  }

  /** A record is reported exactly when it is the record of some scanned
      layer whose check found the record's term. */
  lemma ScanMembership(layers: seq<TextLayer>, config: string, m: MatchResult)
    ensures m in ScanResults(layers, config) <==>
              exists layer :: layer in layers && Reports(layer, config, m)
  {
    FlatMapMembership(layers, layer => RecordsOf(layer, config), m);
    forall layer | layer in layers
      ensures m in RecordsOf(layer, config) <==> Reports(layer, config, m)
    {
      RecordsOfLayer(layer, config);
    }
  }

  /** At most one record per scanned layer. */
  lemma ScanAtMostOnePerLayer(layers: seq<TextLayer>, config: string)
    ensures |ScanResults(layers, config)| <= |layers|
  {
    FlatMapAtMostOneEach(layers, layer => RecordsOf(layer, config));
  }

  /** Flattening two parts of a selection one after the other gives the
      texts of the first followed by those of the second. */
  lemma TextsOfAppend(a: seq<SelectedNode>, b: seq<SelectedNode>)
    ensures TextsOf(a + b) == TextsOf(a) + TextsOf(b)
  {
    FlatMapAppend(a, b, TextsOfNode);
  }

  /** A layer is analysed exactly when it is selected itself or is a text
      descendant of a selected container. */
  lemma TextsOfMembership(selection: seq<SelectedNode>, layer: TextLayer)
    ensures layer in TextsOf(selection) <==>
              TextNode(layer) in selection
              || exists node :: node in selection && node.ContainerNode? && layer in node.texts
  {
    FlatMapMembership(selection, TextsOfNode, layer);
    if TextNode(layer) in selection {
      assert layer in TextsOfNode(TextNode(layer));
    }
  }

  /** A text layer selected together with a container that holds it is
      analysed twice, and a match in it is reported twice. */
  lemma SelectionOverlapRepeats(layer: TextLayer, kind: string, config: string)
    requires ForbiddenTerm(layer.characters, config).Some?
    ensures TextsOf([ContainerNode(kind, [layer]), TextNode(layer)]) == [layer, layer]
    ensures var m := Record(layer, ForbiddenTerm(layer.characters, config).value);
            ScanResults([layer, layer], config) == [m, m]
  {
    var container := ContainerNode(kind, [layer]);
    FlatMapAppend([container], [TextNode(layer)], TextsOfNode);
    FlatMapSingle(container, TextsOfNode);
    FlatMapSingle(TextNode(layer), TextsOfNode);
    assert [container] + [TextNode(layer)] == [container, TextNode(layer)];
    ScanOfOneLayer(layer, config, ForbiddenTerm(layer.characters, config).value);
    ScanAppend([layer], [layer], config);
    assert [layer] + [layer] == [layer, layer];
  }

  /** Worked scan: one layer "This is spam content" with no enclosing
      container, configuration "spam": one record, with the whole text as
      excerpt and the default location. The literals come in as parameters
      fixed by the precondition, which keeps the verifier from evaluating the
      whole check on the literal text at once. */
  lemma SpamExample(text: string, config: string)
    requires text == "This is spam content" && config == "spam"
    ensures ScanResults([TextLayer("1", text, [])], config)
            == [MatchResult("1", text, "spam", DefaultLocation)]
  {
    SpamCheck(text, config);
    ScanOfOneLayer(TextLayer("1", text, []), config, "spam");
    ShortLineIsOwnExcerpt(text);
  }

  lemma SpamCheck(text: string, config: string)
    requires text == "This is spam content" && config == "spam"
    ensures ForbiddenTerm(text, config) == Some("spam")
  {
    SpamTerms();
    SpamFound();
  }

  /** A text of at most 50 characters without line feeds is its own excerpt. */
  lemma ShortLineIsOwnExcerpt(s: string)
    requires |s| <= ExcerptLength && '\n' !in s
    ensures Excerpt(s) == s
  {
  }

  lemma SpamTerms()
    ensures Terms("spam") == ["spam"] && Trim("spam") == "spam"
  {
    SplitSeparatorFree("spam", ',');
    TrimOfTrimmed("spam");
    assert ToLower("spam") == "spam";
    var normal := seq(1, i requires 0 <= i < 1 => Normalize(["spam"][i]));
    assert normal == ["spam"];
    DropEmptyCons("spam", []);
  }

  lemma SpamFound()
    ensures Contains(ToLower("This is spam content"), "spam")
  {
    var before, after := "This is ", " content";
    assert "This is spam content" == before + "spam" + after;
    FoundBetween(before, "spam", after);
    assert ToLower("spam") == "spam";
  }

  /** A lower-case word stands between the lower-cased text around it. */
  lemma FoundBetween(before: string, word: string, after: string)
    ensures Contains(ToLower(before + word + after), ToLower(word))
  {
    var lower := ToLower(before + word + after);
    var w := ToLower(word);
    assert lower[|before|..|before| + |word|] == w;
    assert OccursAt(lower, w, |before|);
  }
}
