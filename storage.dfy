/** The registry of defined components (`src/data/storage.ts`): one map per
    component kind from a component's name to its definition, which may be
    undefined. The module-level maps are the fields of one object. */
module Storage {
  import opened Wrappers

  /** The component kinds, in the order `for...in` visits the registry's
      keys. */
  datatype ComponentType = HTML | COMPOSITE

  const Kinds: seq<ComponentType> := [HTML, COMPOSITE]

  /** A component definition; the registry only stores and returns it. */
  datatype UXComponent = UXComponent(handle: nat)

  /** `UXExists(name)`. */
  datatype UXExists = UXExists(name: string)

  class Registry {
    var html: map<string, Option<UXComponent>>
    var composite: map<string, Option<UXComponent>>

    /** The map of kind `t`. */
    function Components(t: ComponentType): map<string, Option<UXComponent>>
      reads this
    {
      match t
      case HTML => html
      case COMPOSITE => composite
    }

    /** `name` is registered under some kind. */
    predicate Defined(name: string)
      reads this
    {
      exists t :: name in Components(t)
    }

    constructor ()
      ensures html == map[] && composite == map[]
    {
      html := map[];
      composite := map[];
    }

    /** `addDefinedComponent`: sets `name` to `def` in the map of `t`,
        replacing any earlier entry; the other map is unchanged. */
    method AddDefinedComponent(name: string, t: ComponentType, def: Option<UXComponent>)
      modifies this
      ensures Components(t) == old(Components(t))[name := def]
      ensures forall u :: u != t ==> Components(u) == old(Components(u))
      ensures Defined(name)
    {
      if t == HTML {
        html := html[name := def];
      } else {
        composite := composite[name := def];
      }
      assert name in Components(t);
    }

    /** `verifyCanDefine`: fails with `UXExists(name)` exactly when some map
        holds `name`; it changes nothing. */
    method VerifyCanDefine(name: string) returns (r: Outcome<UXExists>)
      ensures r.Fail? <==> Defined(name)
      ensures r.Fail? ==> r.error == UXExists(name)
    {
      if name in html || name in composite {
        assert name in Components(if name in html then HTML else COMPOSITE);
        return Fail(UXExists(name));
      }
      assert forall t :: name !in Components(t) by {
        forall t ensures name !in Components(t) {
          match t
          case HTML =>
          case COMPOSITE =>
        }
      }
      return Pass;
    }

    /** `getComponentType`: the first kind whose map holds `name`, or none. */
    method GetComponentType(name: string) returns (r: Option<ComponentType>)
      ensures r.None? <==> !Defined(name)
      ensures r.Some? ==> name in Components(r.value)
      ensures r == Some(HTML) <==> name in html
      ensures r == Some(COMPOSITE) <==> name !in html && name in composite
    {
      var i := 0;
      while i < |Kinds|
        invariant 0 <= i <= |Kinds|
        invariant forall k :: 0 <= k < i ==> name !in Components(Kinds[k])
      {
        if name in Components(Kinds[i]) {
          assert i == 1 ==> Kinds[i] == COMPOSITE && name !in Components(Kinds[0]);
          return Some(Kinds[i]);
        }
        i := i + 1;
      }
      assert name !in Components(Kinds[0]) && name !in Components(Kinds[1]);
      assert name !in html && name !in composite;
      assert !Defined(name) by {
        forall t ensures name !in Components(t) {
          match t
          case HTML =>
          case COMPOSITE =>
        }
      }
      return None;
    }

    /** `getUIComponentDef`: the first definition found in kind order; a
        name registered with an undefined definition is passed over, as an
        object is the only truthy value a map can hold. */
    method GetUIComponentDef(name: string) returns (r: Option<UXComponent>)
      ensures r.Some? ==> exists t :: name in Components(t) && Components(t)[name] == r
      ensures r.None? <==> forall t :: name !in Components(t) || Components(t)[name].None?
      ensures name in html && html[name].Some? ==> r == html[name]
    {
      var i := 0;
      while i < |Kinds|
        invariant 0 <= i <= |Kinds|
        invariant forall k :: 0 <= k < i ==> name !in Components(Kinds[k]) || Components(Kinds[k])[name].None?
      {
        var comp := if name in Components(Kinds[i]) then Components(Kinds[i])[name] else None;
        if comp.Some? {
          assert i == 1 ==> Kinds[i] == COMPOSITE && (name !in Components(Kinds[0]) || Components(Kinds[0])[name].None?);
          return comp;
        }
        i := i + 1;
      }
      assert name !in Components(Kinds[0]) || Components(Kinds[0])[name].None?;
      assert name !in Components(Kinds[1]) || Components(Kinds[1])[name].None?;
      forall t ensures name !in Components(t) || Components(t)[name].None? {
        match t
        case HTML =>
        case COMPOSITE =>
      }
      return None;
    }
  }

  /** Once a name is added under either kind, defining it again is
      refused. */
  method AddThenVerify(reg: Registry, name: string, t: ComponentType, def: Option<UXComponent>)
    returns (r: Outcome<UXExists>)
    modifies reg
    ensures r == Fail(UXExists(name))
  {
    reg.AddDefinedComponent(name, t, def);
    r := reg.VerifyCanDefine(name);
  }
}
