/**
  * The location label of a text layer (`getNombreUbicacion`): the name of the
  * nearest enclosing frame, component, instance or group, looked for on the
  * way up the parent chain and no further than the page.
  */
module Location {

  /** One node on the way up from a layer: its Figma node type and its name. */
  datatype Ancestor = Ancestor(kind: string, name: string)

  /** The label used when no container encloses the layer on its page. */
  const DefaultLocation: string := "Canvas Principal"

  /** The node types whose name serves as a location. */
  predicate IsContainer(kind: string) {
    kind == "FRAME" || kind == "COMPONENT" || kind == "INSTANCE" || kind == "GROUP"
  }

  /** The location of a layer whose ancestors, nearest first, are `ancestors`
      (the parent, then the parent's parent, up to the root). */
  function LocationOf(ancestors: seq<Ancestor>): string {
    if ancestors == [] then DefaultLocation
    else if IsContainer(ancestors[0].kind) then ancestors[0].name
    else if ancestors[0].kind == "PAGE" then DefaultLocation
    else LocationOf(ancestors[1..])
  }

  /** The walk of `getNombreUbicacion`: `parent = parent.parent` is a step
      to the next index of the chain, and the end of the chain is a null parent. */
  method LocationName(ancestors: seq<Ancestor>) returns (name: string)
    ensures name == LocationOf(ancestors)
  {
    var i := 0;
    while i < |ancestors|
      invariant 0 <= i <= |ancestors|
      invariant LocationOf(ancestors[i..]) == LocationOf(ancestors)
    {
      var parent := ancestors[i];
      if IsContainer(parent.kind) {
        return parent.name;
      }
      if parent.kind == "PAGE" {
        break;
      }
      i := i + 1;
    }
    return DefaultLocation;
  }

  /** When the k-th ancestor is a container and every ancestor below it is
      neither a container nor a page, the location is its name. */
  lemma {:induction false} LocationIsNearestContainer(ancestors: seq<Ancestor>, k: nat)
    requires k < |ancestors| && IsContainer(ancestors[k].kind)
    requires forall j :: 0 <= j < k ==> !IsContainer(ancestors[j].kind) && ancestors[j].kind != "PAGE"
    ensures LocationOf(ancestors) == ancestors[k].name
  {
    if k > 0 {
      LocationIsNearestContainer(ancestors[1..], k - 1);
    }
  }

  /** When every container on the chain lies above some page, or the chain
      has no container at all (a layer with no parent included), the
      location is the default label. */
  lemma {:induction false} LocationDefaultsPastPage(ancestors: seq<Ancestor>)
    requires forall k :: 0 <= k < |ancestors| && IsContainer(ancestors[k].kind) ==>
               exists j :: 0 <= j < k && ancestors[j].kind == "PAGE"
    ensures LocationOf(ancestors) == DefaultLocation
  {
    if ancestors != [] && ancestors[0].kind != "PAGE" {
      assert !IsContainer(ancestors[0].kind);
      var rest := ancestors[1..];
      forall k | 0 <= k < |rest| && IsContainer(rest[k].kind)
        ensures exists j :: 0 <= j < k && rest[j].kind == "PAGE"
      {
        assert rest[k] == ancestors[k + 1];
        var j :| 0 <= j < k + 1 && ancestors[j].kind == "PAGE";
        assert rest[j - 1].kind == "PAGE";
      }
      LocationDefaultsPastPage(rest);
    }
  }

  /** The location is either the default label or the name of a container
      on the chain below every page. */
  lemma {:induction false} LocationIsContainerName(ancestors: seq<Ancestor>)
    ensures LocationOf(ancestors) == DefaultLocation ||
            exists k :: 0 <= k < |ancestors| && IsContainer(ancestors[k].kind)
                        && ancestors[k].name == LocationOf(ancestors)
                        && forall j :: 0 <= j < k ==> ancestors[j].kind != "PAGE"
  {
    if ancestors != [] && !IsContainer(ancestors[0].kind) && ancestors[0].kind != "PAGE" {
      var rest := ancestors[1..];
      LocationIsContainerName(rest);
      if LocationOf(rest) != DefaultLocation {
        var k :| 0 <= k < |rest| && IsContainer(rest[k].kind) && rest[k].name == LocationOf(rest)
                 && forall j :: 0 <= j < k ==> rest[j].kind != "PAGE";
        assert ancestors[k + 1] == rest[k];
        forall j | 0 <= j < k + 1
          ensures ancestors[j].kind != "PAGE"
        {
          if j > 0 {
            assert ancestors[j] == rest[j - 1];
          }
        }
      }
    } else if ancestors != [] && IsContainer(ancestors[0].kind) {
      assert IsContainer(ancestors[0].kind) && ancestors[0].name == LocationOf(ancestors);
    }
  }

  /** Nothing above the first page matters: the walk stops there. */
  lemma {:induction false} LocationStopsAtPage(below: seq<Ancestor>, page: Ancestor, above: seq<Ancestor>)
    requires page.kind == "PAGE"
    requires forall a :: a in below ==> a.kind != "PAGE"
    ensures LocationOf(below + [page] + above) == LocationOf(below + [page])
  {
    if below != [] {
      assert (below + [page] + above)[1..] == below[1..] + [page] + above;
      assert (below + [page])[1..] == below[1..] + [page];
      LocationStopsAtPage(below[1..], page, above);
    }
  }
}
