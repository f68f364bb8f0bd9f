/** The view-model tree (`src/model/ViewModel.ts`): a node keeps the state
    of its view, runs the update callbacks registered for a path when that
    state is written, is attached to at most one parent, and holds an
    ordered list of child nodes. The DOM element of a node is reduced to
    what the code asks of it: its tag name and whether it has an `<items>`
    element. */
module ViewModelTree {
  import opened Wrappers
  import opened Js

  /** A value of a view state, which the tree only stores and hands on. */
  datatype Value = Value(handle: nat)

  /** An update callback registered on a node's custom element. */
  datatype Callback = Callback(handle: nat)

  /** A view configuration: the component's `ux` name, the record's own
      entries in key order (as `Object.keys` lists them), the nested item
      configurations, and whether the element built for `ux` has an
      `<items>` element. */
  datatype ViewState = ViewState(
    ux: string,
    entries: seq<(string, Value)>,
    items: seq<ViewState>,
    hasItemsEl: bool)

  /** `ItemsNotAllowed(tagName)`: the DOM tag name of the node that has no
      items element. */
  datatype ItemsNotAllowed = ItemsNotAllowed(uxName: string)

  /** What a node can be attached to. */
  datatype Target = Element(handle: nat) | Model(vm: ViewModel)

  /** What writing the state sets in motion, in order: the update hook with
      the key written and the values before and after, then each callback
      it runs. */
  datatype Event = Notify(key: string, prev: Option<Value>, next: Value) | Run(callback: Callback)

  /** The configuration keys that are not state (`baseViewConfigKeys`). */
  const BaseViewConfigKeys: seq<string> := ["ux", "items", "listeners"]

  // ---------------------------------------------------------------------
  // extractState (lines 36-43)

  /** The keys of a record, in order. */
  function KeysOf(entries: seq<(string, Value)>): (ks: seq<string>)
    ensures |ks| == |entries|
    ensures forall i :: 0 <= i < |entries| ==> ks[i] == entries[i].0
  {
    if entries == [] then [] else [entries[0].0] + KeysOf(entries[1..])
  }

  /** The entries whose key is not a configuration key. */
  function StateEntries(entries: seq<(string, Value)>): seq<(string, Value)>
  {
    if entries == [] then []
    else (if entries[0].0 in BaseViewConfigKeys then [] else [entries[0]]) + StateEntries(entries[1..])
  }

  /** `extractState`: the record without its configuration keys. */
  function ExtractState(entries: seq<(string, Value)>): map<string, Value>
  {
    Assign(StateEntries(entries), map[])
  }

  lemma {:induction false} StateEntriesMembers(entries: seq<(string, Value)>, e: (string, Value))
    ensures e in StateEntries(entries) <==> e in entries && e.0 !in BaseViewConfigKeys
  {
    if entries != [] {
      StateEntriesMembers(entries[1..], e);
      assert entries == [entries[0]] + entries[1..];
    }
  }

  /** A key of the state is a key of some entry of the state entries. */
  lemma StateKey(entries: seq<(string, Value)>, k: string)
    ensures k in ExtractState(entries) <==> k in KeysOf(entries) && k !in BaseViewConfigKeys
  {
    var ks := KeysOf(entries);
    var se := StateEntries(entries);
    AssignKeys(se, map[], k);
    if k in ks && k !in BaseViewConfigKeys {
      var i :| 0 <= i < |ks| && ks[i] == k;
      StateEntriesMembers(entries, entries[i]);
    }
    if k in ExtractState(entries) {
      var e :| e in se && e.0 == k;
      StateEntriesMembers(entries, e);
      var i :| 0 <= i < |entries| && entries[i] == e;
      assert ks[i] == k;
    }
  }

  /** An entry with a state key keeps its value in the state. */
  lemma StateValue(entries: seq<(string, Value)>, i: nat)
    requires UniqueKeys(entries)
    requires i < |entries| && entries[i].0 !in BaseViewConfigKeys
    ensures entries[i].0 in ExtractState(entries) && ExtractState(entries)[entries[i].0] == entries[i].1
  {
    var se := StateEntries(entries);
    var e := entries[i];
    assert e in se by { StateEntriesMembers(entries, e); }
    forall f | f in se && f.0 == e.0 ensures f == e {
      StateEntriesMembers(entries, f);
      var j :| 0 <= j < |entries| && entries[j] == f;
      assert j == i;
    }
    AssignValue(se, map[], e);
  }

  /** The state holds exactly the record's keys other than `ux`, `items`
      and `listeners`, each with its value unchanged. */
  lemma ExtractStateSpec(entries: seq<(string, Value)>)
    requires UniqueKeys(entries)
    ensures forall k :: k in ExtractState(entries) <==> k in KeysOf(entries) && k !in BaseViewConfigKeys
    ensures forall i :: 0 <= i < |entries| && entries[i].0 !in BaseViewConfigKeys ==>
      entries[i].0 in ExtractState(entries) && ExtractState(entries)[entries[i].0] == entries[i].1
  {
    forall k ensures k in ExtractState(entries) <==> k in KeysOf(entries) && k !in BaseViewConfigKeys {
      StateKey(entries, k);
    }
    forall i | 0 <= i < |entries| && entries[i].0 !in BaseViewConfigKeys
      ensures entries[i].0 in ExtractState(entries) && ExtractState(entries)[entries[i].0] == entries[i].1
    {
      StateValue(entries, i);
    }
  }

  /** A configuration that names only its component has an empty state. */
  lemma OnlyUxHasEmptyState(v: Value)
    ensures ExtractState([("ux", v)]) == map[]
  {
    var e := [("ux", v)];
    assert e[1..] == [];
    assert e[0].0 in BaseViewConfigKeys;
    assert StateEntries(e) == [] + StateEntries([]);
  }

  // ---------------------------------------------------------------------
  // onStateUpdate's path filter (lines 64-67)

  /** A callback registered under `path` runs for a write to `key` when the
      path is the key or lies below it. */
  predicate Matches(path: string, key: string)
  {
    path == key || StartsWith(path, key + ".")
  }

  /** The callbacks a write to `key` runs, in registration order. */
  function Triggered(registered: seq<(string, seq<Callback>)>, key: string): seq<Callback>
  {
    if registered == [] then []
    else (if Matches(registered[0].0, key) then registered[0].1 else []) + Triggered(registered[1..], key)
  }

  /** Running a list of callbacks, one event each. */
  function RunAll(cbs: seq<Callback>): (r: seq<Event>)
    ensures |r| == |cbs|
    ensures forall j :: 0 <= j < |cbs| ==> r[j] == Run(cbs[j])
  {
    seq(|cbs|, j requires 0 <= j < |cbs| => Run(cbs[j]))
  }

  lemma RunAllAppend(a: seq<Callback>, b: seq<Callback>)
    ensures RunAll(a + b) == RunAll(a) + RunAll(b)
  {
  }

  lemma {:induction false} TriggeredSnoc(registered: seq<(string, seq<Callback>)>, i: nat, key: string)
    requires i < |registered|
    ensures Triggered(registered[..i + 1], key)
      == Triggered(registered[..i], key) + (if Matches(registered[i].0, key) then registered[i].1 else [])
  {
    if i > 0 {
      assert registered[..i + 1][1..] == registered[1..][..i];
      assert registered[..i][1..] == registered[1..][..i - 1];
      TriggeredSnoc(registered[1..], i - 1, key);
    } else {
      assert registered[..1][1..] == [];
    }
  }

  /** A callback runs exactly when it is registered under a matching path. */
  lemma {:induction false} TriggeredMembers(registered: seq<(string, seq<Callback>)>, key: string, cb: Callback)
    ensures cb in Triggered(registered, key) <==>
      exists i :: 0 <= i < |registered| && Matches(registered[i].0, key) && cb in registered[i].1
  {
    if registered != [] {
      TriggeredMembers(registered[1..], key, cb);
      if cb in Triggered(registered[1..], key) {
        var i :| 0 <= i < |registered[1..]| && Matches(registered[1..][i].0, key) && cb in registered[1..][i].1;
        assert registered[i + 1] == registered[1..][i];
      }
      if exists i :: 0 <= i < |registered| && Matches(registered[i].0, key) && cb in registered[i].1 {
        var i :| 0 <= i < |registered| && Matches(registered[i].0, key) && cb in registered[i].1;
        if i > 0 {
          assert registered[1..][i - 1] == registered[i];
        }
      }
    }
  }

  /** A write to `key` reaches the paths below it, and not a path that
      merely starts with the same letters. */
  lemma MatchesBelow(key: string, rest: string)
    ensures Matches(key + "." + rest, key)
    ensures rest != [] && rest[0] != '.' ==> !Matches(key + rest, key)
  {
    assert (key + "." + rest)[..|key + "."|] == key + ".";
    if rest != [] && rest[0] != '.' {
      var p := key + rest;
      assert p != key;
      assert p[|key|] == rest[0];
      assert (key + ".")[|key|] == '.';
    }
  }

  // ---------------------------------------------------------------------
  // the tree

  /** A configuration can be built: a node with items has an items
      element, and so does every nested node. */
  predicate Buildable(vs: ViewState)
  {
    (vs.items != [] ==> vs.hasItemsEl) && forall c :: c in vs.items ==> Buildable(c)
  }

  /** Attaching to `t` is refused: `t` is a node without items element. */
  predicate Refuses(t: Target)
  {
    t.Model? && !t.vm.hasItemsEl
  }

  class ViewModel {
    var state: map<string, Value>
    var items: seq<ViewModel>
    var attachedTo: Option<Target>
    /** The update callbacks registered on the custom element, by path, in
        key order. */
    var onDataUpdate: seq<(string, seq<Callback>)>
    /** What writing the state has set in motion so far. */
    var events: seq<Event>
    const tagName: string
    const hasItemsEl: bool

    /** The part of the constructor that only sets fields. The element is
        created as `kebab(vs.ux)`, and an HTML document reports its tag
        name in upper case. */
    constructor Init(vs: ViewState, kebab: string -> string)
      ensures state == ExtractState(vs.entries) && items == [] && attachedTo == None
      ensures onDataUpdate == [] && events == []
      ensures tagName == AsciiUpper(kebab(vs.ux)) && hasItemsEl == vs.hasItemsEl
    {
      state := ExtractState(vs.entries);
      items := [];
      attachedTo := None;
      onDataUpdate := [];
      events := [];
      tagName := AsciiUpper(kebab(vs.ux));
      hasItemsEl := vs.hasItemsEl;
    }

    /** `new ViewModel(vs, target)`: builds the node, attaches it to
        `target` when one is given, then adds each nested item in order;
        an `ItemsNotAllowed` from any of these steps is passed on. */
    static method Create(vs: ViewState, target: Option<Target>, kebab: string -> string)
      returns (r: Result<ViewModel, ItemsNotAllowed>)
      ensures r.Failure? <==> (target.Some? && Refuses(target.value)) || !Buildable(vs)
      ensures r.Failure? && target.Some? && Refuses(target.value) ==> r.error == ItemsNotAllowed(target.value.vm.tagName)
      ensures r.Success? ==> fresh(r.value)
      ensures r.Success? ==> r.value.tagName == AsciiUpper(kebab(vs.ux))
      ensures r.Success? ==> r.value.state == ExtractState(vs.entries) && r.value.attachedTo == target
      ensures r.Success? ==> |r.value.items| == |vs.items|
      ensures r.Success? ==> forall j :: 0 <= j < |vs.items| ==>
        r.value.items[j].attachedTo == Some(Model(r.value))
        && r.value.items[j].state == ExtractState(vs.items[j].entries)
      decreases vs, 0
    {
      var vm := new ViewModel.Init(vs, kebab);
      if target.Some? {
        var a := vm.AttachTo(target.value);
        if a.Fail? {
          return Failure(a.error);
        }
      }
      var i := 0;
      while i < |vs.items|
        invariant 0 <= i <= |vs.items|
        invariant vm.state == ExtractState(vs.entries) && vm.attachedTo == target
        invariant vm.hasItemsEl == vs.hasItemsEl && vm.tagName == AsciiUpper(kebab(vs.ux))
        invariant forall k :: 0 <= k < i ==> Buildable(vs.items[k])
        invariant i > 0 ==> vs.hasItemsEl
        invariant |vm.items| == i
        invariant forall j :: 0 <= j < i ==>
          vm.items[j].attachedTo == Some(Model(vm)) && vm.items[j].state == ExtractState(vs.items[j].entries)
        invariant forall j :: 0 <= j < i ==> fresh(vm.items[j]) && vm.items[j] != vm
      {
        ghost var before := vm.items;
        var a := vm.AddState(vs.items[i], kebab);
        if a.Fail? {
          return Failure(a.error);
        }
        assert forall j :: 0 <= j < i ==> vm.items[j] == before[j];
        i := i + 1;
      }
      return Success(vm);
    }

    /** `addItem` for a configuration: a new node attached to this one,
        appended to the items. */
    method AddState(vs: ViewState, kebab: string -> string) returns (r: Outcome<ItemsNotAllowed>)
      modifies this
      ensures r.Fail? <==> !hasItemsEl || !Buildable(vs)
      ensures r.Fail? && !hasItemsEl ==> r.error == ItemsNotAllowed(tagName)
      ensures r.Fail? ==> items == old(items)
      ensures r.Pass? ==> |items| == |old(items)| + 1 && items[..|old(items)|] == old(items)
      ensures r.Pass? ==> fresh(items[|items| - 1]) && items[|items| - 1] != this
      ensures r.Pass? ==> (items[|items| - 1].attachedTo == Some(Model(this))
        && items[|items| - 1].state == ExtractState(vs.entries))
      ensures state == old(state) && attachedTo == old(attachedTo)
      ensures onDataUpdate == old(onDataUpdate) && events == old(events)
      decreases vs, 1
    {
      var c := Create(vs, Some(Model(this)), kebab);
      if c.Failure? {
        return Fail(c.error);
      }
      items := items + [c.value];
      return Pass;
    }

    /** `addItem` for an existing node: appended as it is, without
        attaching it. */
    method AddItem(vm: ViewModel)
      modifies this
      ensures items == old(items) + [vm]
      ensures state == old(state) && attachedTo == old(attachedTo)
      ensures onDataUpdate == old(onDataUpdate) && events == old(events)
    {
      items := items + [vm];
    }

    /** `attachTo`: a node already attached is detached first; then it is
        attached to `t`, unless `t` refuses items. */
    method AttachTo(t: Target) returns (r: Outcome<ItemsNotAllowed>)
      modifies this
      ensures r.Fail? <==> Refuses(t)
      ensures r.Fail? ==> r.error == ItemsNotAllowed(t.vm.tagName)
      ensures r.Pass? ==> attachedTo == Some(t)
      ensures r.Fail? ==> attachedTo == None
      ensures state == old(state) && items == old(items)
      ensures onDataUpdate == old(onDataUpdate) && events == old(events)
    {
      if attachedTo.Some? {
        Detach();
      }
      r := AttachEl(t);
      if r.Pass? {
        attachedTo := Some(t);
      }
    }

    /** `attachEl`: an element always takes the node; a node takes it only
        into its items element. */
    method AttachEl(t: Target) returns (r: Outcome<ItemsNotAllowed>)
      ensures r.Fail? <==> Refuses(t)
      ensures r.Fail? ==> r.error == ItemsNotAllowed(t.vm.tagName)
    {
      match t
      case Element(_) => r := Pass;
      case Model(vm) =>
        if vm.hasItemsEl {
          r := Pass;
        } else {
          r := Fail(ItemsNotAllowed(vm.tagName));
        }
    }

    /** `detach`: the node is attached to nothing. */
    method Detach()
      modifies this
      ensures attachedTo == None
      ensures state == old(state) && items == old(items)
      ensures onDataUpdate == old(onDataUpdate) && events == old(events)
    {
      attachedTo := None;
    }

    /** The proxy's `get`. */
    function Get(key: string): Option<Value>
      reads this
    {
      if key in state then Some(state[key]) else None
    }

    /** The proxy's `set`: stores the value, then calls the update hook
        with the value read before the write, and reports success. */
    method Set(key: string, value: Value) returns (ok: bool)
      modifies this
      ensures state == old(state)[key := value]
      ensures Get(key) == Some(value)
      ensures events == old(events) + [Notify(key, old(Get(key)), value)] + RunAll(Triggered(onDataUpdate, key))
      ensures ok
      ensures items == old(items) && attachedTo == old(attachedTo) && onDataUpdate == old(onDataUpdate)
    {
      var curr := Get(key);
      state := state[key := value];
      OnStateUpdate(key, curr, value);
      ok := true;
    }

    /** `onStateUpdate`: runs, in order, the callbacks registered under
        `key` and under the paths below it. */
    method OnStateUpdate(key: string, prev: Option<Value>, next: Value)
      modifies this`events
      ensures events == old(events) + [Notify(key, prev, next)] + RunAll(Triggered(onDataUpdate, key))
    {
      events := events + [Notify(key, prev, next)];
      ghost var start := events;
      var i := 0;
      while i < |onDataUpdate|
        invariant 0 <= i <= |onDataUpdate|
        invariant events == start + RunAll(Triggered(onDataUpdate[..i], key))
      {
        TriggeredSnoc(onDataUpdate, i, key);
        var path := onDataUpdate[i].0;
        if path == key || StartsWith(path, key + ".") {
          RunAllAppend(Triggered(onDataUpdate[..i], key), onDataUpdate[i].1);
          events := events + RunAll(onDataUpdate[i].1);
        } else {
          assert Triggered(onDataUpdate[..i + 1], key) == Triggered(onDataUpdate[..i], key) + [];
        }
        i := i + 1;
      }
      assert onDataUpdate[..i] == onDataUpdate;
    }

    /** `removeItem(i)`: an index at or past the end removes nothing;
        otherwise `splice(i, 1)` removes one entry (a negative index counts
        from the end) and the removed node is detached. Only this node and
        the removed one change. */
    method RemoveAt(i: int) returns (r: Option<ViewModel>)
      modifies this, SplicedOut(items, i)
      ensures i >= |old(items)| ==> r == None && items == old(items)
      ensures i < |old(items)| ==> items == SpliceOut(old(items), i)
      ensures i < |old(items)| && old(items) != [] ==>
        r == Some(old(items)[SpliceStart(|old(items)|, i)]) && r.value.attachedTo == None
      ensures old(items) == [] ==> r == None
      ensures r.Some? ==> r.value.state == old(r.value.state) && r.value.onDataUpdate == old(r.value.onDataUpdate)
      ensures r.Some? && r.value != this ==> r.value.items == old(r.value.items)
      ensures state == old(state) && onDataUpdate == old(onDataUpdate) && events == old(events)
      ensures r != Some(this) ==> attachedTo == old(attachedTo)
      ensures forall x :: x in old(items) && x != this && Some(x) != r ==> unchanged(x)
    {
      if i >= |items| {
        return None;
      }
      var k := SpliceStart(|items|, i);
      if k < |items| {
        var removed := items[k];
        items := items[..k] + items[k + 1..];
        removed.Detach();
        r := Some(removed);
      } else {
        r := None;
      }
    }

    /** `removeItem(vm)`: removes the first entry that is `vm`; for a node
        that is not an item `indexOf` gives -1, and the last item is
        removed (and detached) instead. */
    method RemoveItem(vm: ViewModel) returns (r: Option<ViewModel>)
      modifies this, SplicedOut(items, IndexOf(items, vm))
      ensures vm in old(items) ==> items == SpliceOut(old(items), IndexOf(old(items), vm)) && r == Some(vm)
      ensures vm !in old(items) && old(items) != [] ==>
        items == old(items)[..|old(items)| - 1] && r == Some(old(items)[|old(items)| - 1])
      ensures old(items) == [] ==> items == [] && r == None
      ensures r.Some? ==> r.value.attachedTo == None && r.value.state == old(r.value.state)
      ensures r.Some? && r.value != this ==> r.value.items == old(r.value.items)
      ensures state == old(state) && onDataUpdate == old(onDataUpdate) && events == old(events)
      ensures r != Some(this) ==> attachedTo == old(attachedTo)
      ensures forall x :: x in old(items) && x != this && Some(x) != r ==> unchanged(x)
    {
      ghost var before := items;
      var k := IndexOf(items, vm);
      r := RemoveAt(k);
      if vm !in before && before != [] {
        SpliceMinusOneRemovesLast(before);
      }
    }
  }

  /** The node `splice(i, 1)` takes out of `items`, if any. */
  function SplicedOut(items: seq<ViewModel>, i: int): set<ViewModel>
  {
    if i < |items| && items != [] then {items[SpliceStart(|items|, i)]} else {}
  }

  /** The window's genesis view model (`GenesisViewModel`). */
  class GenesisViewModel {
    const rootEl: nat
    var items: seq<ViewModel>

    constructor (rootEl: nat)
      ensures this.rootEl == rootEl && items == []
    {
      this.rootEl := rootEl;
      items := [];
    }

    /** `addItem`: a new node attached to the root element, appended. */
    method AddItem(vs: ViewState, kebab: string -> string) returns (r: Outcome<ItemsNotAllowed>)
      modifies this
      ensures r.Fail? <==> !Buildable(vs)
      ensures r.Fail? ==> items == old(items)
      ensures r.Pass? ==> |items| == |old(items)| + 1 && items[..|old(items)|] == old(items)
      ensures r.Pass? ==> (items[|items| - 1].attachedTo == Some(Element(rootEl))
        && items[|items| - 1].state == ExtractState(vs.entries))
    {
      var c := ViewModel.Create(vs, Some(Element(rootEl)), kebab);
      if c.Failure? {
        return Fail(c.error);
      }
      items := items + [c.value];
      return Pass;
    }
  }

  /** The holder of the static `GenesisViewModel.instance`. */
  class Window {
    var instance: Option<GenesisViewModel>
    const body: nat

    constructor (body: nat)
      ensures instance == None && this.body == body
    {
      instance := None;
      this.body := body;
    }

    /** `getInstance`: the instance made by the first call, rooted at the
        given element or else at the body; every later call returns it,
        whatever element it is given. */
    method GetInstance(rootEl: Option<nat>) returns (g: GenesisViewModel)
      modifies this
      ensures old(instance).Some? ==> g == old(instance).value
      ensures old(instance).None? ==> fresh(g) && g.rootEl == rootEl.GetOr(body) && g.items == []
      ensures instance == Some(g)
    {
      if instance.Some? {
        return instance.value;
      }
      g := new GenesisViewModel(rootEl.GetOr(body));
      instance := Some(g);
    }
  }

  /** Two calls give the same instance. */
  method GetInstanceTwice(w: Window, a: Option<nat>, b: Option<nat>) returns (g1: GenesisViewModel, g2: GenesisViewModel)
    modifies w
    ensures g1 == g2
  {
    g1 := w.GetInstance(a);
    g2 := w.GetInstance(b);
  }
}
