/** The breadth-first renderer (`src/services/UI.ts`): `render` queues the
    app's root component and drains the queue; each component becomes an
    element with a fresh `ux-N` id and its defined fields as attributes,
    and its items are queued behind everything already waiting. The DOM is
    reduced to the list of elements created, in order, each with the parent
    it was appended to. */
module Ui {
  import opened Wrappers
  import opened Js

  /** A component description (`ComponentDef`): its `ux` name, its own
      entries in key order (an undefined value is `None`), its items, and
      whether the element created for it has an `<items>` element. */
  datatype ComponentDef = ComponentDef(
    ux: string,
    entries: seq<(string, Option<string>)>,
    items: seq<ComponentDef>,
    hasItemsEl: bool)

  /** Where an element is appended: a root element of the page, or the
      items element of the element with the given id. */
  datatype Parent = Root(handle: nat) | ItemsOf(id: string)

  /** A queued component and the element it goes into. */
  datatype Job = Job(component: ComponentDef, parentEl: Parent)

  /** An element created by the renderer for the component named `ux` (its
      tag name is the kebab-case form of `ux`), with the attributes set on
      it in the order `setAttribute` was called. */
  datatype Rendered = Rendered(
    id: string,
    ux: string,
    attributes: seq<(string, string)>,
    parentEl: Parent,
    hasItemsEl: bool)

  /** `ElementMissing(elementRef)`. */
  datatype ElementMissing = ElementMissing(elementRef: string)

  /** The keys that are not attributes. */
  const NotAttributes: seq<string> := ["ux", "items"]

  // ---------------------------------------------------------------------
  // ids (lines 6, 52)

  /** The id of the `n`-th rendered component. */
  function IdOf(n: nat): string
  {
    "ux-" + DecimalString(n)
  }

  /** Different counter values give different ids. */
  lemma IdOfDistinct(a: nat, b: nat)
    requires a != b
    ensures IdOf(a) != IdOf(b)
  {
    if IdOf(a) == IdOf(b) {
      assert IdOf(a)[3..] == DecimalString(a);
      assert IdOf(b)[3..] == DecimalString(b);
      DecimalStringInjective(a, b);
    }
  }

  // ---------------------------------------------------------------------
  // attributes (lines 56-62)

  /** The entries that become attributes: not `ux` or `items`, and
      defined. */
  function AttributeEntries(entries: seq<(string, Option<string>)>): seq<(string, string)>
  {
    if entries == [] then []
    else
      (if entries[0].0 !in NotAttributes && entries[0].1.Some? then [(entries[0].0, entries[0].1.value)] else [])
      + AttributeEntries(entries[1..])
  }

  /** The `setAttribute` calls for a component: its defined fields, then
      `id`. */
  function AttributeCalls(entries: seq<(string, Option<string>)>, id: string): seq<(string, string)>
  {
    AttributeEntries(entries) + [("id", id)]
  }

  /** The attributes an element ends up with after the calls `calls`: a
      later call for a key replaces an earlier one. */
  function AttributeMap(calls: seq<(string, string)>): map<string, string>
  {
    Assign(calls, map[])
  }

  /** The attributes of the element for a component. */
  function Attributes(entries: seq<(string, Option<string>)>, id: string): map<string, string>
  {
    AttributeMap(AttributeCalls(entries, id))
  }

  /** `id` is written last, over whatever the fields wrote. */
  lemma AttributesLast(entries: seq<(string, Option<string>)>, id: string)
    ensures Attributes(entries, id) == Assign(AttributeEntries(entries), map[])["id" := id]
  {
    AssignSnoc(AttributeEntries(entries), ("id", id), map[]);
  }

  lemma AttributeEntriesSnoc(entries: seq<(string, Option<string>)>, i: nat)
    requires i < |entries|
    ensures AttributeEntries(entries[..i + 1]) == AttributeEntries(entries[..i])
      + (if entries[i].0 !in NotAttributes && entries[i].1.Some? then [(entries[i].0, entries[i].1.value)] else [])
  {
    AttributeEntriesAppend(entries[..i], [entries[i]]);
    assert entries[..i + 1] == entries[..i] + [entries[i]];
    assert [entries[i]][1..] == [];
  }

  lemma {:induction false} AttributeEntriesAppend(a: seq<(string, Option<string>)>, b: seq<(string, Option<string>)>)
    ensures AttributeEntries(a + b) == AttributeEntries(a) + AttributeEntries(b)
  {
    if a == [] {
      assert a + b == b;
    } else {
      assert (a + b)[1..] == a[1..] + b;
      AttributeEntriesAppend(a[1..], b);
    }
  }

  lemma {:induction false} AttributeEntriesMembers(entries: seq<(string, Option<string>)>, e: (string, string))
    ensures e in AttributeEntries(entries) <==> e.0 !in NotAttributes && (e.0, Some(e.1)) in entries
  {
    if entries != [] {
      AttributeEntriesMembers(entries[1..], e);
      assert entries == [entries[0]] + entries[1..];
    }
  }

  /** An attribute is set for a key exactly when the key is a defined
      field other than `ux` and `items`. */
  lemma AttributeKey(entries: seq<(string, Option<string>)>, id: string, k: string)
    requires k != "id"
    ensures k in Attributes(entries, id) <==>
      k !in NotAttributes && exists i :: 0 <= i < |entries| && entries[i].0 == k && entries[i].1.Some?
  {
    var ae := AttributeEntries(entries);
    AttributesLast(entries, id);
    AssignKeys(ae, map[], k);
    if k in Attributes(entries, id) {
      var e :| e in ae && e.0 == k;
      AttributeEntriesMembers(entries, e);
      var i :| 0 <= i < |entries| && entries[i] == (e.0, Some(e.1));
    }
    if k !in NotAttributes && exists i :: 0 <= i < |entries| && entries[i].0 == k && entries[i].1.Some? {
      var i :| 0 <= i < |entries| && entries[i].0 == k && entries[i].1.Some?;
      AttributeEntriesMembers(entries, (k, entries[i].1.value));
    }
  }

  /** A defined field keeps its value as attribute, `id` excepted. */
  lemma AttributeValue(entries: seq<(string, Option<string>)>, id: string, i: nat)
    requires UniqueKeys(entries)
    requires i < |entries| && entries[i].0 !in NotAttributes && entries[i].0 != "id" && entries[i].1.Some?
    ensures entries[i].0 in Attributes(entries, id) && Attributes(entries, id)[entries[i].0] == entries[i].1.value
  {
    var ae := AttributeEntries(entries);
    AttributesLast(entries, id);
    var e := (entries[i].0, entries[i].1.value);
    assert e in ae by { AttributeEntriesMembers(entries, e); }
    forall f | f in ae && f.0 == e.0 ensures f == e {
      AttributeEntriesMembers(entries, f);
      var j :| 0 <= j < |entries| && entries[j] == (f.0, Some(f.1));
      assert j == i;
    }
    AssignValue(ae, map[], e);
  }

  /** `id` is set last, so the generated id replaces any `id` field. */
  lemma IdSetLast(entries: seq<(string, Option<string>)>, id: string, given: string)
    requires ("id", Some(given)) in entries
    ensures "id" in Attributes(entries, id) && Attributes(entries, id)["id"] == id
    ensures ("id", given) in AttributeEntries(entries)
  {
    AttributesLast(entries, id);
    AttributeEntriesMembers(entries, ("id", given));
  }

  // ---------------------------------------------------------------------
  // the queue (lines 26-44, 64-80)

  /** The number of components in a description. */
  function Size(c: ComponentDef): nat
    decreases c, 1
  {
    1 + SumSizes(c.items)
  }

  function SumSizes(cs: seq<ComponentDef>): nat
    decreases cs, 0
  {
    if cs == [] then 0 else Size(cs[0]) + SumSizes(cs[1..])
  }

  /** The number of components still to come from a queue. */
  function QueueSize(q: seq<Job>): nat
  {
    if q == [] then 0 else Size(q[0].component) + QueueSize(q[1..])
  }

  lemma {:induction false} QueueSizeAppend(a: seq<Job>, b: seq<Job>)
    ensures QueueSize(a + b) == QueueSize(a) + QueueSize(b)
  {
    if a == [] {
      assert a + b == b;
    } else {
      assert (a + b)[1..] == a[1..] + b;
      QueueSizeAppend(a[1..], b);
    }
  }

  /** The items of a component, queued for the element `p`. */
  function Jobs(items: seq<ComponentDef>, p: Parent): seq<Job>
  {
    if items == [] then [] else [Job(items[0], p)] + Jobs(items[1..], p)
  }

  lemma {:induction false} JobsSize(items: seq<ComponentDef>, p: Parent)
    ensures QueueSize(Jobs(items, p)) == SumSizes(items)
  {
    if items != [] {
      JobsSize(items[1..], p);
      assert Jobs(items, p)[1..] == Jobs(items[1..], p);
    }
  }

  /** What rendering `c` as the element `id` queues: its items, when it
      has any and its element has an items element. */
  function Children(c: ComponentDef, id: string): seq<Job>
  {
    if c.items != [] && c.hasItemsEl then Jobs(c.items, ItemsOf(id)) else []
  }

  lemma ChildrenSmaller(q: seq<Job>, id: string)
    requires q != []
    ensures QueueSize(q[1..] + Children(q[0].component, id)) < QueueSize(q)
  {
    var c := q[0].component;
    QueueSizeAppend(q[1..], Children(c, id));
    JobsSize(c.items, ItemsOf(id));
  }

  /** The element for job `job` rendered as the `n`-th component. */
  function View(job: Job, n: nat): Rendered
  {
    Rendered(IdOf(n), job.component.ux, AttributeCalls(job.component.entries, IdOf(n)), job.parentEl,
      job.component.hasItemsEl)
  }

  /** The elements draining `q` creates when the counter stands at `n`:
      the head of the queue first, its children behind the rest. */
  function Bfs(q: seq<Job>, n: nat): seq<Rendered>
    decreases QueueSize(q)
  {
    if q == [] then []
    else
      ChildrenSmaller(q, IdOf(n));
      [View(q[0], n)] + Bfs(q[1..] + Children(q[0].component, IdOf(n)), n + 1)
  }

  lemma BfsStep(q: seq<Job>, n: nat)
    requires q != []
    ensures Bfs(q, n) == [View(q[0], n)] + Bfs(q[1..] + Children(q[0].component, IdOf(n)), n + 1)
  {
  }

  /** The console message for a component without items element. */
  function Complaint(tag: string): string
  {
    "Adding items not allowed for the component " + tag + "."
  }

  /** The messages logged while the elements `rs` were created. */
  function Complaints(rs: seq<Rendered>, kebab: string -> string): seq<string>
  {
    if rs == [] then []
    else (if rs[0].hasItemsEl then [] else [Complaint(kebab(rs[0].ux))]) + Complaints(rs[1..], kebab)
  }

  /** A message is logged exactly for each element created without an
      items element, leaves included. */
  lemma {:induction false} ComplaintsMembers(rs: seq<Rendered>, kebab: string -> string, m: string)
    ensures m in Complaints(rs, kebab) <==>
      exists i :: 0 <= i < |rs| && !rs[i].hasItemsEl && m == Complaint(kebab(rs[i].ux))
  {
    if rs != [] {
      ComplaintsMembers(rs[1..], kebab, m);
      if exists i :: 1 <= i < |rs| && !rs[i].hasItemsEl && m == Complaint(kebab(rs[i].ux)) {
        var i :| 1 <= i < |rs| && !rs[i].hasItemsEl && m == Complaint(kebab(rs[i].ux));
        assert rs[1..][i - 1] == rs[i];
      }
    }
  }

  /** The queue after rendering its head as the `n`-th component. */
  function Next(q: seq<Job>, n: nat): seq<Job>
    requires q != []
  {
    q[1..] + Children(q[0].component, IdOf(n))
  }

  /** One turn of the render loop keeps the elements created so far plus
      those still to come from the queue. */
  lemma TurnRendered(r: seq<Rendered>, q: seq<Job>, n: nat)
    requires q != []
    ensures (r + [View(q[0], n)]) + Bfs(Next(q, n), n + 1) == r + Bfs(q, n)
    ensures |Bfs(q, n)| == 1 + |Bfs(Next(q, n), n + 1)|
  {
    BfsStep(q, n);
  }

  /** One turn of the render loop keeps the messages logged so far plus
      those still to come. */
  lemma TurnLog(l: seq<string>, q: seq<Job>, n: nat, kebab: string -> string)
    requires q != []
    ensures var v := View(q[0], n);
      (l + (if v.hasItemsEl then [] else [Complaint(kebab(v.ux))])) + Complaints(Bfs(Next(q, n), n + 1), kebab)
      == l + Complaints(Bfs(q, n), kebab)
  {
    BfsStep(q, n);
  }

  /** One whole turn of the render loop, on the state before (`r`, `l`,
      `q`, `n`) and after (`r'`, `l'`, `q'`, `n'`) it: what is created and
      logged so far plus what the queue still creates is unchanged, and the
      queue shrinks. */
  lemma Turn(r: seq<Rendered>, l: seq<string>, q: seq<Job>, n: nat, kebab: string -> string,
             r': seq<Rendered>, l': seq<string>, q': seq<Job>, n': nat)
    requires q != [] && n' == n + 1
    requires r' == r + [View(q[0], n)]
    requires q' == q[1..] + Children(q[0].component, IdOf(n))
    requires l' == l + (if q[0].component.hasItemsEl then [] else [Complaint(kebab(q[0].component.ux))])
    ensures r' + Bfs(q', n') == r + Bfs(q, n)
    ensures l' + Complaints(Bfs(q', n'), kebab) == l + Complaints(Bfs(q, n), kebab)
    ensures n' + |Bfs(q', n')| == n + |Bfs(q, n)|
    ensures QueueSize(q') < QueueSize(q)
  {
    TurnRendered(r, q, n);
    TurnLog(l, q, n, kebab);
    ChildrenSmaller(q, IdOf(n));
  }

  /** The components that rendering `c` creates, counted independently of
      the queue: `c` itself, and, when it has items and its element has an
      items element, everything its items create. */
  function Renderable(c: ComponentDef): multiset<ComponentDef>
    decreases c, 1
  {
    multiset{c} + (if c.items != [] && c.hasItemsEl then RenderableAll(c.items) else multiset{})
  }

  function RenderableAll(cs: seq<ComponentDef>): multiset<ComponentDef>
    decreases cs, 0
  {
    if cs == [] then multiset{} else Renderable(cs[0]) + RenderableAll(cs[1..])
  }

  /** The components a queue creates when it is drained. */
  function RenderableQueue(q: seq<Job>): multiset<ComponentDef>
  {
    if q == [] then multiset{} else Renderable(q[0].component) + RenderableQueue(q[1..])
  }

  /** The components of a run of jobs, with their multiplicity. */
  function ComponentsOf(js: seq<Job>): (m: multiset<ComponentDef>)
    ensures |m| == |js|
  {
    if js == [] then multiset{} else multiset{js[0].component} + ComponentsOf(js[1..])
  }

  lemma {:induction false} RenderableQueueAppend(a: seq<Job>, b: seq<Job>)
    ensures RenderableQueue(a + b) == RenderableQueue(a) + RenderableQueue(b)
  {
    if a == [] {
      assert a + b == b;
    } else {
      assert (a + b)[1..] == a[1..] + b;
      RenderableQueueAppend(a[1..], b);
    }
  }

  lemma {:induction false} JobsRenderable(items: seq<ComponentDef>, p: Parent)
    ensures RenderableQueue(Jobs(items, p)) == RenderableAll(items)
  {
    if items != [] {
      JobsRenderable(items[1..], p);
      assert Jobs(items, p)[1..] == Jobs(items[1..], p);
    }
  }

  /** One turn: the head is created, and what its children create joins
      what the rest of the queue creates. */
  lemma NextRenderable(q: seq<Job>, n: nat)
    requires q != []
    ensures RenderableQueue(q) == multiset{q[0].component} + RenderableQueue(Next(q, n))
  {
    var c := q[0].component;
    RenderableQueueAppend(q[1..], Children(c, IdOf(n)));
    JobsRenderable(c.items, ItemsOf(IdOf(n)));
  }

  /** Draining a queue renders each component it can create exactly once
      (as a multiset, so nothing is rendered twice and nothing is missed):
      the `k`-th element created is the view of the `k`-th job of a run
      whose components are exactly `RenderableQueue(q)`. */
  lemma {:induction false} BfsRenders(q: seq<Job>, n: nat) returns (js: seq<Job>)
    ensures |js| == |Bfs(q, n)|
    ensures forall k :: 0 <= k < |js| ==> Bfs(q, n)[k] == View(js[k], n + k)
    ensures ComponentsOf(js) == RenderableQueue(q)
    decreases QueueSize(q)
  {
    if q == [] {
      return [];
    }
    var rest := Next(q, n);
    BfsStep(q, n);
    ChildrenSmaller(q, IdOf(n));
    var js' := BfsRenders(rest, n + 1);
    js := [q[0]] + js';
    BfsRendersStep(q, n, js');
    NextRenderable(q, n);
  }

  /** The step of BfsRenders: the head's view in front of the rest's run. */
  lemma BfsRendersStep(q: seq<Job>, n: nat, js': seq<Job>)
    requires q != []
    requires Bfs(q, n) == [View(q[0], n)] + Bfs(Next(q, n), n + 1)
    requires |js'| == |Bfs(Next(q, n), n + 1)|
    requires forall k :: 0 <= k < |js'| ==> Bfs(Next(q, n), n + 1)[k] == View(js'[k], n + 1 + k)
    ensures |[q[0]] + js'| == |Bfs(q, n)|
    ensures forall k :: 0 <= k < |[q[0]] + js'| ==> Bfs(q, n)[k] == View(([q[0]] + js')[k], n + k)
    ensures ComponentsOf([q[0]] + js') == multiset{q[0].component} + ComponentsOf(js')
  {
    var js := [q[0]] + js';
    assert js[1..] == js';
    forall k | 0 <= k < |js| ensures Bfs(q, n)[k] == View(js[k], n + k) {
      if k > 0 {
        assert js[k] == js'[k - 1];
      }
    }
  }

  /** The number of elements a drain creates is the number of components
      the queue can create. */
  lemma BfsCount(q: seq<Job>, n: nat)
    ensures |Bfs(q, n)| == |RenderableQueue(q)|
  {
    var js := BfsRenders(q, n);
  }

  /** The `k`-th element created gets the id `ux-(n + k)`. */
  lemma {:induction false} BfsIds(q: seq<Job>, n: nat, k: nat)
    requires k < |Bfs(q, n)|
    ensures Bfs(q, n)[k].id == IdOf(n + k)
    decreases QueueSize(q)
  {
    TurnRendered([], q, n);
    var rest := Next(q, n);
    assert Bfs(q, n) == [View(q[0], n)] + Bfs(rest, n + 1);
    if k > 0 {
      ChildrenSmaller(q, IdOf(n));
      BfsIds(rest, n + 1, k - 1);
    }
  }

  /** No two elements created get the same id. */
  lemma BfsIdsDistinct(q: seq<Job>, n: nat, i: nat, j: nat)
    requires i < j < |Bfs(q, n)|
    ensures Bfs(q, n)[i].id != Bfs(q, n)[j].id
  {
    BfsIds(q, n, i);
    BfsIds(q, n, j);
    IdOfDistinct(n + i, n + j);
  }

  /** First in, first out: the components already waiting are rendered
      before anything they queue, in the order they were queued. */
  lemma {:induction false} BfsFifo(q: seq<Job>, n: nat, k: nat)
    requires k < |q|
    ensures k < |Bfs(q, n)| && Bfs(q, n)[k] == View(q[k], n + k)
    decreases QueueSize(q)
  {
    TurnRendered([], q, n);
    var rest := Next(q, n);
    assert Bfs(q, n) == [View(q[0], n)] + Bfs(rest, n + 1);
    if k > 0 {
      ChildrenSmaller(q, IdOf(n));
      BfsFifo(rest, n + 1, k - 1);
      assert rest[k - 1] == q[k];
    }
  }

  /** The items of a component are queued for its items element, in
      declaration order. */
  lemma ChildrenQueued(c: ComponentDef, id: string, j: nat)
    requires c.items != [] && c.hasItemsEl && j < |c.items|
    ensures |Children(c, id)| == |c.items| && Children(c, id)[j] == Job(c.items[j], ItemsOf(id))
  {
    JobsIndex(c.items, ItemsOf(id), j);
  }

  lemma {:induction false} JobsIndex(items: seq<ComponentDef>, p: Parent, j: nat)
    requires j < |items|
    ensures |Jobs(items, p)| == |items| && Jobs(items, p)[j] == Job(items[j], p)
  {
    if j > 0 {
      JobsIndex(items[1..], p, j - 1);
    } else if |items| > 1 {
      JobsIndex(items[1..], p, 0);
    }
  }

  /** The elements created so far are numbered: the `i`-th has the id
      `ux-i`. */
  predicate Numbered(rs: seq<Rendered>)
  {
    forall i :: 0 <= i < |rs| ==> rs[i].id == IdOf(i)
  }

  /** Numbered elements have pairwise distinct ids. */
  lemma NumberedDistinct(rs: seq<Rendered>)
    requires Numbered(rs)
    ensures forall i, j :: 0 <= i < j < |rs| ==> rs[i].id != rs[j].id
  {
    forall i, j | 0 <= i < j < |rs| ensures rs[i].id != rs[j].id {
      IdOfDistinct(i, j);
    }
  }

  /** A drain started with the counter at the number of elements created
      so far keeps the elements numbered. */
  lemma NumberedDrain(rs: seq<Rendered>, q: seq<Job>)
    requires Numbered(rs)
    ensures Numbered(rs + Bfs(q, |rs|))
  {
    var all := rs + Bfs(q, |rs|);
    forall i | 0 <= i < |all| ensures all[i].id == IdOf(i) {
      if i >= |rs| {
        BfsIds(q, |rs|, i - |rs|);
      }
    }
  }

  /** The renderer's static queue and module counter, and the page it
      renders into. */
  class UI {
    var elCount: nat
    var componentsToRender: seq<Job>
    /** The elements created so far, in order. */
    var rendered: seq<Rendered>
    /** The messages logged to the console so far. */
    var log: seq<string>
    const body: nat

    /** The counter is the number of elements created, and the elements
        are numbered in creation order; so no id is ever given twice, in
        one render or across renders (`NumberedDistinct`). */
    ghost predicate Valid()
      reads this
    {
      elCount == |rendered| && Numbered(rendered)
    }

    constructor (body: nat)
      ensures elCount == 0 && componentsToRender == [] && rendered == [] && log == []
      ensures this.body == body
      ensures Valid()
    {
      elCount := 0;
      componentsToRender := [];
      rendered := [];
      log := [];
      this.body := body;
    }

    /** The attribute loop of `renderView`: each defined field other than
        `ux` and `items` is set in order, then `id`. */
    static method SetAttributes(entries: seq<(string, Option<string>)>, id: string)
      returns (calls: seq<(string, string)>)
      ensures calls == AttributeCalls(entries, id)
    {
      calls := [];
      var i := 0;
      while i < |entries|
        invariant 0 <= i <= |entries|
        invariant calls == AttributeEntries(entries[..i])
      {
        AttributeEntriesSnoc(entries, i);
        var e := entries[i];
        if e.0 !in NotAttributes && e.1.Some? {
          calls := calls + [(e.0, e.1.value)];
        }
        i := i + 1;
      }
      assert entries[..i] == entries;
      calls := calls + [("id", id)];
    }

    /** `renderView`: creates the element for `job` with the next id,
        appends it to its parent, and queues the component's items when it
        has an items element; a component without one is logged. */
    method RenderView(job: Job, kebab: string -> string)
      requires Valid()
      modifies this
      ensures Valid()
      ensures elCount == old(elCount) + 1
      ensures rendered == old(rendered) + [View(job, old(elCount))]
      ensures componentsToRender == old(componentsToRender) + Children(job.component, IdOf(old(elCount)))
      ensures log == old(log) + (if job.component.hasItemsEl then [] else [Complaint(kebab(job.component.ux))])
    {
      var comp := job.component;
      var id := IdOf(elCount);
      elCount := elCount + 1;
      var compName := kebab(comp.ux);
      var calls := SetAttributes(comp.entries, id);
      rendered := rendered + [Rendered(id, comp.ux, calls, job.parentEl, comp.hasItemsEl)];
      if comp.items != [] && comp.hasItemsEl {
        componentsToRender := componentsToRender + Jobs(comp.items, ItemsOf(id));
      } else if !comp.hasItemsEl {
        log := log + [Complaint(compName)];
      }
    }

    /** One turn of the loop of `render`: takes the head of the queue and
        renders it. */
    method RenderNext(kebab: string -> string)
      requires componentsToRender != [] && Valid()
      modifies this
      ensures Valid()
      ensures rendered + Bfs(componentsToRender, elCount)
        == old(rendered) + Bfs(old(componentsToRender), old(elCount))
      ensures log + Complaints(Bfs(componentsToRender, elCount), kebab)
        == old(log) + Complaints(Bfs(old(componentsToRender), old(elCount)), kebab)
      ensures elCount + |Bfs(componentsToRender, elCount)|
        == old(elCount) + |Bfs(old(componentsToRender), old(elCount))|
      ensures QueueSize(componentsToRender) < QueueSize(old(componentsToRender))
    {
      ghost var q, n, r, l := componentsToRender, elCount, rendered, log;
      var job := componentsToRender[0];
      componentsToRender := componentsToRender[1..];
      RenderView(job, kebab);
      Turn(r, l, q, n, kebab, rendered, log, componentsToRender, elCount);
    }

    /** The loop of `render`: renders the head of the queue until the queue
        is empty. */
    method Drain(kebab: string -> string)
      requires Valid()
      modifies this
      ensures Valid()
      ensures componentsToRender == []
      ensures rendered == old(rendered) + Bfs(old(componentsToRender), old(elCount))
      ensures elCount == old(elCount) + |Bfs(old(componentsToRender), old(elCount))|
      ensures log == old(log) + Complaints(Bfs(old(componentsToRender), old(elCount)), kebab)
    {
      while |componentsToRender| > 0
        invariant rendered + Bfs(componentsToRender, elCount)
          == old(rendered) + Bfs(old(componentsToRender), old(elCount))
        invariant log + Complaints(Bfs(componentsToRender, elCount), kebab)
          == old(log) + Complaints(Bfs(old(componentsToRender), old(elCount)), kebab)
        invariant elCount + |Bfs(componentsToRender, elCount)|
          == old(elCount) + |Bfs(old(componentsToRender), old(elCount))|
        invariant Valid()
        decreases QueueSize(componentsToRender)
      {
        RenderNext(kebab);
      }
      assert rendered + [] == rendered && log + [] == log;
    }

    /** `render`: finds the root element (the body when no id is given),
        queues the app behind whatever is waiting, and renders until the
        queue is empty. An id that names no element is refused before
        anything is queued. */
    method Render(app: ComponentDef, elementId: Option<string>, getElementById: string -> Option<nat>,
                  kebab: string -> string)
      returns (r: Outcome<ElementMissing>)
      requires Valid()
      modifies this
      ensures Valid()
      ensures forall i, j :: 0 <= i < j < |rendered| ==> rendered[i].id != rendered[j].id
      ensures r.Fail? <==> elementId.Some? && elementId.value != "" && getElementById(elementId.value).None?
      ensures r.Fail? ==> r.error == ElementMissing(elementId.value)
      ensures r.Fail? ==> (componentsToRender == old(componentsToRender) && rendered == old(rendered)
        && elCount == old(elCount) && log == old(log))
      ensures r.Pass? ==> componentsToRender == []
      ensures r.Pass? ==>
        var root := if elementId.Some? && elementId.value != "" then getElementById(elementId.value).value else body;
        var created := Bfs(old(componentsToRender) + [Job(app, Root(root))], old(elCount));
        && rendered == old(rendered) + created
        && elCount == old(elCount) + |created|
        && log == old(log) + Complaints(created, kebab)
    {
      var root: nat;
      if elementId.Some? && elementId.value != "" {
        var found := getElementById(elementId.value);
        if found.None? {
          NumberedDistinct(rendered);
          return Fail(ElementMissing(elementId.value));
        }
        root := found.value;
      } else {
        root := body;
      }
      componentsToRender := componentsToRender + [Job(app, Root(root))];
      Drain(kebab);
      NumberedDistinct(rendered);
      return Pass;
    }
  }

  /** An id naming no element is reported as `ElementMissing` with that id,
      and nothing is rendered. */
  method RenderMissing(ui: UI, app: ComponentDef, id: string, kebab: string -> string)
    returns (r: Outcome<ElementMissing>)
    requires id != "" && ui.Valid()
    modifies ui
    ensures r == Fail(ElementMissing(id))
  {
    r := ui.Render(app, Some(id), _ => None, kebab);
  }
}
