/** What a caller may reach and what a deployment serves: exact keys, restricted by intersection. */
module Capabilities {

  datatype ScopeKey = Tool(tool: string) | Action(dispatcher: string, action: string) | Resource(name: string)

  /** Keys of `left` that `right` also has, in the order of `left`. */
  function IntersectKeys(left: seq<ScopeKey>, right: seq<ScopeKey>): (keys: seq<ScopeKey>)
    ensures forall key :: key in keys <==> key in left && key in right
  {
    if left == [] then []
    else
      var rest := IntersectKeys(left[1..], right);
      assert left == [left[0]] + left[1..];
      if left[0] in right then [left[0]] + rest else rest
  }

  /** The exact keys one caller holds. */
  datatype ToolScope = AllTools | ToolPalette(keys: seq<ScopeKey>) {
    predicate Allows(key: ScopeKey) {
      AllTools? || key in keys
    }

    function Intersect(other: ToolScope): (r: ToolScope)
      ensures forall key :: r.Allows(key) <==> Allows(key) && other.Allows(key)
    {
      if AllTools? then other
      else if other.AllTools? then this
      else ToolPalette(IntersectKeys(keys, other.keys))
    }
  }

  /** What the deployment serves; a declared read is always served. */
  datatype ServedSurface = AllServed | ServedPalette(keys: seq<ScopeKey>) {
    predicate Admits(key: ScopeKey, isRead: bool) {
      isRead || AllServed? || key in keys
    }

    function Intersect(other: ServedSurface): (r: ServedSurface)
      ensures forall key, isRead :: r.Admits(key, isRead) <==> Admits(key, isRead) && other.Admits(key, isRead)
    {
      if AllServed? then other
      else if other.AllServed? then this
      else ServedPalette(IntersectKeys(keys, other.keys))
    }

    /** Restrict without widening an earlier restriction. */
    function Restrict(to: ServedSurface): ServedSurface {
      match this
      case AllServed => to
      case ServedPalette(_) => Intersect(to)
    }
  }

  function RestrictAll(surface: ServedSurface, restrictions: seq<ServedSurface>): ServedSurface {
    if restrictions == [] then surface
    else RestrictAll(surface, restrictions[..|restrictions| - 1]).Restrict(restrictions[|restrictions| - 1])
  }

  /** After any sequence of restrictions a key is served exactly when every one of them serves it. */
  lemma {:induction false} RestrictionsAccumulate(
    surface: ServedSurface, restrictions: seq<ServedSurface>, key: ScopeKey, isRead: bool)
    ensures RestrictAll(surface, restrictions).Admits(key, isRead) <==>
            && surface.Admits(key, isRead)
            && forall i :: 0 <= i < |restrictions| ==> restrictions[i].Admits(key, isRead)
  {
    if restrictions != [] {
      var n := |restrictions| - 1;
      RestrictionsAccumulate(surface, restrictions[..n], key, isRead);
      assert forall i :: 0 <= i < n ==> restrictions[..n][i] == restrictions[i];
    }
  }
}
