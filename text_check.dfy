/**
  * The term check of the content-review plugin (`revisarTexto`): the
  * comma-separated configuration becomes a list of forbidden terms, and the
  * first of them that occurs in the lower-cased layer text is reported.
  */
module TextCheck {
  import opened Wrappers
  import opened JsStrings

  /** One configured piece after `t.trim().toLowerCase()`. */
  function Normalize(piece: string): string {
    ToLower(Trim(piece))
  }

  /** `.filter(t => t.length > 0)`: the non-empty terms, in their order. */
  function DropEmpty(ts: seq<string>): seq<string> {
    if ts == [] then []
    else if ts[0] == "" then DropEmpty(ts[1..])
    else [ts[0]] + DropEmpty(ts[1..])
  }

  /** The forbidden terms of a configuration: `split(',')`, then each piece
      trimmed and lower-cased, then the empty ones dropped. */
  function Terms(config: string): seq<string> {
    var pieces := Split(config, ',');
    DropEmpty(seq(|pieces|, i requires 0 <= i < |pieces| => Normalize(pieces[i])))
  }

  /** The search loop of the check: the first term, in list order, that
      occurs in text, or None when none does. */
  function FirstMatch(text: string, terms: seq<string>): Option<string> {
    if terms == [] then None
    else if Contains(text, terms[0]) then Some(terms[0])
    else FirstMatch(text, terms[1..])
  }

  /** The filter keeps exactly the non-empty terms. */
  lemma {:induction false} DropEmptyMembership(ts: seq<string>, t: string)
    ensures t in DropEmpty(ts) <==> t in ts && t != ""
  {
    if ts != [] {
      DropEmptyMembership(ts[1..], t);
      assert ts == [ts[0]] + ts[1..];
    }
  }

  /** A found term is in the list and occurs in the text; nothing is found
      exactly when no term of the list occurs in the text. */
  lemma {:induction false} FirstMatchSpec(text: string, terms: seq<string>)
    ensures FirstMatch(text, terms).Some? ==>
              FirstMatch(text, terms).value in terms && Contains(text, FirstMatch(text, terms).value)
    ensures FirstMatch(text, terms).None? <==> forall t :: t in terms ==> !Contains(text, t)
  {
    if terms != [] && !Contains(text, terms[0]) {
      FirstMatchSpec(text, terms[1..]);
      assert terms == [terms[0]] + terms[1..];
    }
  }

  /** `revisarTexto(nodo, prohibidosString)` on the layer's characters: an
      empty or blank configuration gives None before any term is tested;
      otherwise the first term found in the lower-cased characters. */
  function ForbiddenTerm(characters: string, config: string): Option<string> {
    if config == "" || Trim(config) == "" then None
    else FirstMatch(ToLower(characters), Terms(config))
  }

  /** `revisarTexto` as the plugin runs it: a loop over the terms that
      returns at the first one the lower-cased text includes. */
  method CheckText(characters: string, config: string) returns (found: Option<string>)
    ensures found == ForbiddenTerm(characters, config)
  {
    var text := ToLower(characters);
    if config == "" || Trim(config) == "" {
      return None;
    }
    var terms := Terms(config);
    for i := 0 to |terms|
      invariant FirstMatch(text, terms) == FirstMatch(text, terms[i..])
    {
      if Contains(text, terms[i]) {
        return Some(terms[i]);
      }
    }
    return None;
  }

  /** A term is configured exactly when it is the non-empty normal form of
      one of the comma-separated pieces. */
  lemma TermsMembership(config: string, t: string)
    ensures t in Terms(config) <==>
              t != "" && exists p :: p in Split(config, ',') && Normalize(p) == t
  {
    var pieces := Split(config, ',');
    var normal := seq(|pieces|, i requires 0 <= i < |pieces| => Normalize(pieces[i]));
    DropEmptyMembership(normal, t);
    if t in Terms(config) {
      var i :| 0 <= i < |normal| && normal[i] == t;
      assert pieces[i] in pieces && Normalize(pieces[i]) == t;
    }
    if t != "" && exists p :: p in pieces && Normalize(p) == t {
      var p :| p in pieces && Normalize(p) == t;
      var i :| 0 <= i < |pieces| && pieces[i] == p;
      assert normal[i] == t;
    }
  }

  /** The normal form of a comma-free piece holds no comma and is already
      trimmed and lower-cased. */
  lemma NormalizeIsNormal(p: string)
    requires ',' !in p
    ensures ',' !in Normalize(p)
    ensures Trim(Normalize(p)) == Normalize(p) && ToLower(Normalize(p)) == Normalize(p)
  {
    var trimmed := Trim(p);
    TrimSpec(p);
    assert ',' !in trimmed;
    var t := ToLower(trimmed);
    forall i | 0 <= i < |t|
      ensures t[i] != ','
    {
      LowerKeepsSpacesAndCommas(trimmed[i]);
    }
    ToLowerTrimmed(trimmed);
    ToLowerIdempotent(trimmed);
  }

  /** Every configured term is non-empty, holds no comma, and is already
      trimmed and lower-cased. */
  lemma TermsAreNormalized(config: string, t: string)
    requires t in Terms(config)
    ensures t != "" && ',' !in t
    ensures Trim(t) == t && ToLower(t) == t
  {
    TermsMembership(config, t);
    var p :| p in Split(config, ',') && Normalize(p) == t;
    SplitPiecesSeparatorFree(config, ',');
    NormalizeIsNormal(p);
  }

  /** The terms of a configuration that starts with a comma-free piece p are
      p's term (when it is not empty) followed by the terms of the rest: the
      list keeps the order of the pieces. */
  lemma TermsCons(p: string, rest: string)
    requires ',' !in p
    ensures Terms(p + [','] + rest) ==
              (if Normalize(p) == "" then [] else [Normalize(p)]) + Terms(rest)
  {
    var pieces := Split(p + [','] + rest, ',');
    var tail := Split(rest, ',');
    SplitAfterPiece(p, rest, ',');
    var normal := seq(|pieces|, i requires 0 <= i < |pieces| => Normalize(pieces[i]));
    var normalTail := seq(|tail|, i requires 0 <= i < |tail| => Normalize(tail[i]));
    assert normal == [Normalize(p)] + normalTail;
    DropEmptyCons(Normalize(p), normalTail);
  }

  /** The filter keeps order: filtering two lists one after the other gives
      the kept terms of the first followed by those of the second. */
  lemma {:induction false} DropEmptyAppend(a: seq<string>, b: seq<string>)
    ensures DropEmpty(a + b) == DropEmpty(a) + DropEmpty(b)
  {
    if a != [] {
      assert (a + b)[1..] == a[1..] + b;
      DropEmptyAppend(a[1..], b);
    } else {
      assert a + b == b;
    }
  }

  lemma DropEmptyCons(t: string, ts: seq<string>)
    ensures DropEmpty([t] + ts) == (if t == "" then [] else [t]) + DropEmpty(ts)
  {
    assert ([t] + ts)[1..] == ts;
  }

  /** A blank configuration has no terms, so the early `return null` of the
      check agrees with running the loop over an empty list. */
  lemma BlankConfigurationHasNoTerms(config: string)
    requires Trim(config) == ""
    ensures Terms(config) == []
  {
    TrimSpec(config);
    assert ',' !in config by {
      assert !IsSpace(',');
    }
    SplitSeparatorFree(config, ',');
    assert Normalize(config) == "";
    var normal := seq(1, i requires 0 <= i < 1 => Normalize([config][i]));
    assert normal == [""];
    DropEmptyCons("", []);
  }

  /** The result of the check is the first configured term found in the
      lower-cased characters, whatever the configuration. */
  lemma ForbiddenTermIsFirstMatch(characters: string, config: string)
    ensures ForbiddenTerm(characters, config) == FirstMatch(ToLower(characters), Terms(config))
  {
    if config == "" {
      assert Trim(config) == "";
    }
    if Trim(config) == "" {
      BlankConfigurationHasNoTerms(config);
    }
  }

  /** First match: the search yields t exactly when t is at some position
      k of the list, occurs in the text, and no term before position k does. */
  lemma {:induction false} FirstMatchIsFirst(text: string, terms: seq<string>, t: string)
    ensures FirstMatch(text, terms) == Some(t) <==>
              exists k :: 0 <= k < |terms| && terms[k] == t && Contains(text, t)
                          && forall j :: 0 <= j < k ==> !Contains(text, terms[j])
  {
    if terms == [] {
    } else if Contains(text, terms[0]) {
      if FirstMatch(text, terms) == Some(t) {
        assert terms[0] == t;
      }
    } else {
      var tail := terms[1..];
      FirstMatchIsFirst(text, tail, t);
      if FirstMatch(text, terms) == Some(t) {
        var k :| 0 <= k < |tail| && tail[k] == t && Contains(text, t)
                 && forall j :: 0 <= j < k ==> !Contains(text, tail[j]);
        assert terms[k + 1] == t;
        assert forall j :: 0 <= j < k + 1 ==> !Contains(text, terms[j]) by {
          forall j | 0 <= j < k + 1
            ensures !Contains(text, terms[j])
          {
            if j > 0 {
              assert terms[j] == tail[j - 1];
            }
          }
        }
      }
      if exists k :: 0 <= k < |terms| && terms[k] == t && Contains(text, t)
                     && forall j :: 0 <= j < k ==> !Contains(text, terms[j]) {
        var k :| 0 <= k < |terms| && terms[k] == t && Contains(text, t)
                 && forall j :: 0 <= j < k ==> !Contains(text, terms[j]);
        assert k > 0;
        assert tail[k - 1] == t;
        assert forall j :: 0 <= j < k - 1 ==> !Contains(text, tail[j]) by {
          forall j | 0 <= j < k - 1
            ensures !Contains(text, tail[j])
          {
            assert tail[j] == terms[j + 1];
          }
        }
      }
    }
  }

  /** What `revisarTexto` promises its caller: a non-null result is a
      non-empty configured term that occurs in the lower-cased text and no
      earlier term does; the result is null exactly when no term occurs. */
  lemma ForbiddenTermSpec(characters: string, config: string)
    ensures var r := ForbiddenTerm(characters, config);
            r.Some? ==> r.value in Terms(config) && r.value != ""
                        && Contains(ToLower(characters), r.value)
    ensures var r := ForbiddenTerm(characters, config);
            r.Some? ==> exists k :: 0 <= k < |Terms(config)| && Terms(config)[k] == r.value
                          && forall j :: 0 <= j < k ==> !Contains(ToLower(characters), Terms(config)[j])
    ensures ForbiddenTerm(characters, config).None? <==>
              forall t :: t in Terms(config) ==> !Contains(ToLower(characters), t)
  {
    ForbiddenTermIsFirstMatch(characters, config);
    FirstMatchSpec(ToLower(characters), Terms(config));
    var r := ForbiddenTerm(characters, config);
    if r.Some? {
      TermsAreNormalized(config, r.value);
      FirstMatchIsFirst(ToLower(characters), Terms(config), r.value);
    }
  }

  /** The check ignores the case of the layer text. */
  lemma CaseInsensitive(characters: string, config: string)
    ensures ForbiddenTerm(ToLower(characters), config) == ForbiddenTerm(characters, config)
  {
    ToLowerIdempotent(characters);
  }

  /** Worked configurations: an empty one and one of blank pieces have no terms. */
  lemma BlankExamples()
    ensures Terms("") == []
    ensures Terms("  ,, ") == []
  {
    BlankConfigurationHasNoTerms("");
    assert "  ,, " == "  " + [','] + ", ";
    TermsCons("  ", ", ");
    assert ", " == "" + [','] + " ";
    TermsCons("", " ");
    BlankConfigurationHasNoTerms(" ");
    assert Normalize("  ") == "" by {
      assert Trim("  ") == "";
    }
    assert Normalize("") == "" by {
      assert Trim("") == "";
    }
  }

  /** The terms of three comma-free pieces joined by commas. */
  lemma TermsOfThree(a: string, b: string, c: string)
    requires ',' !in a && ',' !in b && ',' !in c
    ensures Terms(a + [','] + b + [','] + c) == DropEmpty([Normalize(a), Normalize(b), Normalize(c)])
  {
    assert a + [','] + b + [','] + c == a + [','] + (b + [','] + c);
    TermsCons(a, b + [','] + c);
    TermsCons(b, c);
    SplitSeparatorFree(c, ',');
    var normal := seq(1, i requires 0 <= i < 1 => Normalize([c][i]));
    assert normal == [Normalize(c)];
    DropEmptyCons(Normalize(a), [Normalize(b), Normalize(c)]);
    DropEmptyCons(Normalize(b), [Normalize(c)]);
  }

  /** Worked configuration: pieces are trimmed, lower-cased and kept in order. */
  lemma MixedCaseExample()
    ensures Terms("Foo, bar ,BAZ") == ["foo", "bar", "baz"]
  {
    var foo, bar, baz := "Foo", " bar ", "BAZ";
    assert "Foo, bar ,BAZ" == foo + [','] + bar + [','] + baz;
    TermsOfThree(foo, bar, baz);
    NormalizeFoo();
    NormalizeBar();
    NormalizeBaz();
    DropEmptyCons("foo", ["bar", "baz"]);
    DropEmptyCons("bar", ["baz"]);
    DropEmptyCons("baz", []);
  }

  lemma NormalizeFoo()
    ensures Normalize("Foo") == "foo"
  {
    TrimOfTrimmed("Foo");
  }

  lemma NormalizeBar()
    ensures Normalize(" bar ") == "bar"
  {
    assert " bar " == [' '] + "bar" + [' '];
    TrimPadded("bar");
    assert ToLower("bar") == "bar";
  }

  lemma TrimPadded(s: string)
    requires s != [] && !IsSpace(s[0]) && !IsSpace(s[|s| - 1])
    ensures Trim([' '] + s + [' ']) == s
  {
    var padded := [' '] + s + [' '];
    assert padded[1..] == s + [' '];
    assert TrimStart(padded) == s + [' '];
    assert (s + [' '])[..|s|] == s;
    assert TrimEnd(s + [' ']) == s;
  }

  lemma NormalizeBaz()
    ensures Normalize("BAZ") == "baz"
  {
    TrimOfTrimmed("BAZ");
  }
}
