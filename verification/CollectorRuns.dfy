/** The collector as a state machine over whole runs: what a run may rely on, and what no run can see. */
module CollectorRuns {
  import opened Slabs
  import opened Reachability
  import opened CountedSets

  /** The machine word that points to a cell. */
  function WordOf(a: Addr): nat {
    match a
    case Slab(b, i) => b + CELL_SIZE * i
    case Oversize(p) => p
  }

  /** The objects some stack word points to. */
  ghost function PointedTo(g: Graph, words: seq<nat>): set<Addr> {
    set a | a in g && WordOf(a) in words
  }

  lemma PointedToAreObjects(g: Graph, words: seq<nat>)
    ensures PointedTo(g, words) <= g.Keys
  {}

  lemma WordPoints(g: Graph, words: seq<nat>, k: nat, a: Addr)
    requires k < |words| && a in g && WordOf(a) == words[k]
    ensures a in PointedTo(g, words)
  {}

  /** The objects of a list. */
  ghost function Listed(list: seq<Addr>): set<Addr> {
    set a | a in list
  }

  lemma NothingYet(g: Graph, words: seq<nat>, list: seq<Addr>, roots: set<Addr>)
    ensures roots + PointedTo(g, words[..0]) == roots == roots + Listed(list[..0])
  {}

  lemma OneMoreListed(list: seq<Addr>, k: nat, roots: set<Addr>)
    requires k < |list|
    ensures roots + Listed(list[..k + 1]) == roots + Listed(list[..k]) + {list[k]}
  {
    assert list[..k + 1] == list[..k] + [list[k]];
  }

  /** Everything marking starts from. */
  ghost function Roots(g: Graph, words: seq<nat>, interpreters: seq<Addr>, protected: set<Addr>, lists: seq<Addr>): set<Addr> {
    Listed(interpreters) + PointedTo(g, words) + protected + Listed(lists)
  }

  // What the machine holds, in its own terms.

  /** References, followed before or after the holder's own mark, lead from c to a. */
  ghost predicate Trail(g: Graph, p: seq<Addr>, c: Addr, a: Addr) {
    && |p| > 0 && p[0] == c && p[|p| - 1] == a && (forall k :: 0 <= k < |p| ==> p[k] in g)
    && (forall k :: 0 < k < |p| ==> p[k] in g[p[k - 1]].early || p[k] in g[p[k - 1]].late)
  }

  /** A stack word is the address of the cell c, or c is marked by an interpreter, protected, or in a protected list. */
  ghost predicate HeldDirectly(words: seq<nat>, interpreters: seq<Addr>, protected: set<Addr>, lists: seq<Addr>, c: Addr) {
    || (c.Slab? && c.base + 48 * c.index in words) || (c.Oversize? && c.at in words)
    || c in interpreters || c in protected || c in lists
  }

  ghost predicate Held(g: Graph, words: seq<nat>, interpreters: seq<Addr>, protected: set<Addr>, lists: seq<Addr>, a: Addr) {
    exists c, p :: HeldDirectly(words, interpreters, protected, lists, c) && Trail(g, p, c, a)
  }

  lemma TrailConnects(g: Graph, p: seq<Addr>, c: Addr, a: Addr)
    ensures Trail(g, p, c, a) <==> Connects(g, p, c, a)
  {
    forall k | 0 < k < |p| && p[k - 1] in g
      ensures p[k] in Children(g[p[k - 1]]) <==> p[k] in g[p[k - 1]].early || p[k] in g[p[k - 1]].late
    {}
  }

  /** What is reached from the roots is what the machine holds. */
  lemma ReachedIsHeld(g: Graph, words: seq<nat>, interpreters: seq<Addr>, protected: set<Addr>, lists: seq<Addr>, a: Addr)
    ensures a in Reachable(g, Roots(g, words, interpreters, protected, lists)) <==> Held(g, words, interpreters, protected, lists, a)
  {
    hide Trail, Connects;
    if a in Reachable(g, Roots(g, words, interpreters, protected, lists)) {
      var c :| c in Roots(g, words, interpreters, protected, lists) && Reaches(g, c, a);
      var p :| Connects(g, p, c, a);
      TrailConnects(g, p, c, a);
      assert HeldDirectly(words, interpreters, protected, lists, c);
    }
    if Held(g, words, interpreters, protected, lists, a) {
      var c, p :| HeldDirectly(words, interpreters, protected, lists, c) && Trail(g, p, c, a);
      TrailConnects(g, p, c, a);
      TrailEnds(g, p, c, a);
      assert Reaches(g, c, a);
    }
  }

  lemma AllReachedAreHeld(g: Graph, words: seq<nat>, interpreters: seq<Addr>, protected: set<Addr>, lists: seq<Addr>)
    ensures forall a :: a in Reachable(g, Roots(g, words, interpreters, protected, lists)) <==> Held(g, words, interpreters, protected, lists, a)
  {
    hide Reachable, Roots, Held;
    forall a
      ensures a in Reachable(g, Roots(g, words, interpreters, protected, lists)) <==> Held(g, words, interpreters, protected, lists, a)
    {
      ReachedIsHeld(g, words, interpreters, protected, lists, a);
    }
  }

  lemma TrailEnds(g: Graph, p: seq<Addr>, c: Addr, a: Addr)
    requires Trail(g, p, c, a)
    ensures c in g && a in g
  {}

  /** Constructed objects, cells handed out but not constructed, and the protection counts. */
  datatype State = State(objects: Graph, raw: set<Addr>, protected: map<Addr, nat>)

  /** An immediate value or a reference to an object. */
  datatype Value = Immediate(bits: nat) | Ref(a: Addr)

  datatype Event =
    | Allocate(a: Addr)
    | Construct(a: Addr, o: Object)
    | Assign(a: Addr, o: Object)
    | Protect(v: Value)
    | Unprotect(v: Value)
    | Collect(words: seq<nat>, interpreters: seq<Addr>, lists: seq<Addr>, main: bool)

  /** The references of an object are to objects, and early ones as marking needs them. */
  ghost predicate Fits(g: Graph, o: Object) {
    && (forall c :: c in Children(o) ==> c in g)
    && (forall c :: c in o.early ==> o.kind.Activation? && c in g && g[c].kind.Ordinary?)
  }

  ghost function RootsOf(s: State, e: Event): set<Addr>
    requires e.Collect?
  {
    Roots(s.objects, e.words, e.interpreters, s.protected.Keys, e.lists)
  }

  /** What a collection at this point reaches. */
  ghost function Reached(s: State, e: Event): set<Addr>
    requires e.Collect?
  {
    Reachable(s.objects, RootsOf(s, e))
  }

  ghost predicate Step(s: State, e: Event, t: State) {
    match e
    case Allocate(a) =>
      a !in s.objects && a !in s.raw && t == s.(raw := s.raw + {a})
    case Construct(a, o) =>
      a in s.raw && Fits(s.objects[a := o], o) && t == s.(objects := s.objects[a := o], raw := s.raw - {a})
    case Assign(a, o) =>
      && a in s.objects && Fits(s.objects[a := o], o) && o.kind == s.objects[a].kind && o.threadSafe == s.objects[a].threadSafe
      && t == s.(objects := s.objects[a := o])
    case Protect(v) =>
      (v.Ref? ==> v.a in s.objects) && t == s.(protected := if v.Ref? then Add(s.protected, v.a) else s.protected)
    case Unprotect(v) =>
      t == s.(protected := if v.Ref? then Remove(s.protected, v.a) else s.protected)
    case Collect(words, interpreters, lists, main) =>
      && Listed(interpreters) <= s.objects.Keys && Listed(lists) <= s.objects.Keys
      && t.objects == Survivors(s.objects, Reached(s, e), main)
      && (forall a :: a in t.raw <==> a in s.raw && (a.Slab? || !main))
      && t.protected == s.protected
  }

  ghost predicate Inv(s: State) {
    && Closed(s.objects) && EarlyAreOrdinary(s.objects) && s.raw !! s.objects.Keys
    && s.protected.Keys <= s.objects.Keys && forall a :: a in s.protected ==> s.protected[a] > 0
  }

  /** Nothing kept only because it may not be destroyed on this thread refers to something that is destroyed. */
  ghost predicate NothingDangles(g: Graph, reached: set<Addr>) {
    forall x, c :: x in g && x !in reached && !g[x].threadSafe && c in Children(g[x]) && c in g ==> c in reached || !g[c].threadSafe
  }

  /** A collection keeps the heap closed exactly when it runs on the main thread or leaves nothing dangling. */
  lemma ClosedAfterCollection(g: Graph, roots: set<Addr>, main: bool)
    requires Closed(g)
    ensures var reached := Reachable(g, roots);
      Closed(Survivors(g, reached, main)) <==> main || NothingDangles(g, reached)
  {
    hide Reachable, Survivors;
    var reached := Reachable(g, roots);
    var s := Survivors(g, reached, main);
    forall x, c | x in g && x in reached && c in Children(g[x])
      ensures c in reached && c in s
    {
      ReachableIsClosed(g, roots, x, c);
      ReachableAreObjects(g, roots);
    }
    if !main && !NothingDangles(g, reached) {
      var x, c :| x in g && x !in reached && !g[x].threadSafe && c in Children(g[x]) && c in g && c !in reached && g[c].threadSafe;
      assert x in s && c !in s;
    }
  }

  lemma ReachableAreObjects(g: Graph, roots: set<Addr>)
    ensures Reachable(g, roots) <= g.Keys
  {}

  /**
   * A collection leaves exactly the objects that the machine holds and, away from the main thread, those that may not be
   * destroyed there; and it leaves them as they are.
   */
  lemma CollectionLeavesHeld(s: State, words: seq<nat>, interpreters: seq<Addr>, lists: seq<Addr>, main: bool, t: State, a: Addr)
    requires Step(s, Collect(words, interpreters, lists, main), t)
    ensures a in t.objects <==>
      a in s.objects && (Held(s.objects, words, interpreters, s.protected.Keys, lists, a) || (!main && !s.objects[a].threadSafe))
    ensures a in t.objects ==> t.objects[a] == s.objects[a]
  {
    hide Reachable, Roots, Held;
    ReachedIsHeld(s.objects, words, interpreters, s.protected.Keys, lists, a);
  }

  lemma AllLeftAreHeld(s: State, words: seq<nat>, interpreters: seq<Addr>, lists: seq<Addr>, main: bool, t: State)
    requires Step(s, Collect(words, interpreters, lists, main), t)
    ensures forall a :: a in t.objects <==>
      a in s.objects && (Held(s.objects, words, interpreters, s.protected.Keys, lists, a) || (!main && !s.objects[a].threadSafe))
  {
    hide Step, Held;
    forall a
      ensures a in t.objects <==>
        a in s.objects && (Held(s.objects, words, interpreters, s.protected.Keys, lists, a) || (!main && !s.objects[a].threadSafe))
    {
      CollectionLeavesHeld(s, words, interpreters, lists, main, t, a);
    }
  }

  /** Steps a run may take: collections off the main thread must leave nothing dangling. */
  ghost predicate Allowed(s: State, e: Event) {
    e.Collect? && !e.main ==> NothingDangles(s.objects, Reached(s, e))
  }

  lemma StepKeepsInvariant(s: State, e: Event, t: State)
    requires Inv(s) && Step(s, e, t) && Allowed(s, e)
    ensures Inv(t)
  {
    match e {
      case Construct(a, o) => WriteKeepsShape(s.objects, a, o);
      case Assign(a, o) => WriteKeepsShape(s.objects, a, o);
      case Collect(words, interpreters, lists, main) =>
        CollectKeepsInvariant(s, e, t);
      case Allocate(a) =>
      case Protect(v) =>
      case Unprotect(v) =>
    }
  }

  lemma WriteKeepsShape(g: Graph, a: Addr, o: Object)
    requires Closed(g) && EarlyAreOrdinary(g) && Fits(g[a := o], o) && (a in g ==> o.kind == g[a].kind)
    ensures Closed(g[a := o]) && EarlyAreOrdinary(g[a := o])
  {
    hide Children;
    var h := g[a := o];
    forall x, c | x in h && c in h[x].early && c in h
      ensures h[x].kind.Activation? && h[c].kind.Ordinary?
    {
      if x != a {
        assert c in Children(g[x]) by { EarlyIsChild(g[x], c); }
        assert c in g;
      }
    }
  }

  lemma EarlyIsChild(o: Object, c: Addr)
    requires c in o.early
    ensures c in Children(o)
  {}

  lemma CollectKeepsInvariant(s: State, e: Event, t: State)
    requires Inv(s) && e.Collect? && Step(s, e, t) && Allowed(s, e)
    ensures Inv(t)
  {
    hide Reachable, Closed, Children;
    ClosedAfterCollection(s.objects, RootsOf(s, e), e.main);
    forall a | a in s.protected
      ensures a in t.objects
    {
      RootIsReached(s, e, a);
    }
  }

  lemma RootIsReached(s: State, e: Event, a: Addr)
    requires e.Collect? && a in s.protected && a in s.objects
    ensures a in Reached(s, e)
  {
    ReachesItself(s.objects, a);
    assert a in RootsOf(s, e);
  }

  /** A run: consecutive allowed steps from a good state. */
  ghost predicate Run(states: seq<State>, events: seq<Event>) {
    && |states| == |events| + 1 && Inv(states[0])
    && forall i :: 0 <= i < |events| ==> Step(states[i], events[i], states[i + 1]) && Allowed(states[i], events[i])
  }

  lemma {:induction false} RunKeepsInvariant(states: seq<State>, events: seq<Event>, i: nat)
    requires Run(states, events) && i < |states|
    ensures Inv(states[i])
  {
    hide Inv, Step, Allowed;
    if i > 0 {
      RunKeepsInvariant(states, events, i - 1);
      StepKeepsInvariant(states[i - 1], events[i - 1], states[i]);
    }
  }

  /** The machine holds a at this collection. */
  ghost predicate HeldAt(s: State, e: Event, a: Addr) {
    e.Collect? && Held(s.objects, e.words, e.interpreters, s.protected.Keys, e.lists, a)
  }

  /** The machine holds a at every collection from step i up to step j. */
  ghost predicate HeldThroughout(states: seq<State>, events: seq<Event>, a: Addr, i: nat, j: nat)
    requires |states| == |events| + 1 && i <= j <= |events|
  {
    forall k :: i <= k < j && events[k].Collect? ==> HeldAt(states[k], events[k], a)
  }

  /** Any sequence of steps, in any order and on any thread, from a state whose raw cells are not objects. */
  ghost predicate Interleaving(states: seq<State>, events: seq<Event>) {
    && |states| == |events| + 1 && states[0].raw !! states[0].objects.Keys
    && forall i :: 0 <= i < |events| ==> Step(states[i], events[i], states[i + 1])
  }

  lemma StepKeepsApart(s: State, e: Event, t: State)
    requires s.raw !! s.objects.Keys && Step(s, e, t)
    ensures t.raw !! t.objects.Keys
  {
    hide Fits, Reached;
  }

  /** One step neither frees an object that is held nor hands it out again, and only an assignment changes it. */
  lemma StepKeepsHeld(s: State, e: Event, t: State, a: Addr)
    requires s.raw !! s.objects.Keys && Step(s, e, t) && a in s.objects && (e.Collect? ==> HeldAt(s, e, a))
    ensures a in t.objects && (e.Allocate? ==> e.a != a)
    ensures t.objects[a] == s.objects[a] || (e.Assign? && e.a == a)
  {
    hide Fits, Reached, Held;
    if e.Collect? {
      CollectionLeavesHeld(s, e.words, e.interpreters, e.lists, e.main, t, a);
    }
  }

  lemma {:induction false} RawAreApart(states: seq<State>, events: seq<Event>, i: nat)
    requires Interleaving(states, events) && i < |states|
    ensures states[i].raw !! states[i].objects.Keys
  {
    hide Step;
    if i > 0 {
      RawAreApart(states, events, i - 1);
      StepKeepsApart(states[i - 1], events[i - 1], states[i]);
    }
  }

  /**
   * Safety over all interleavings, collections away from the main thread included: an object that is held at every
   * collection stays where it is, is never handed out again, and keeps its contents but for assignments to it.
   */
  lemma {:induction false} ReachableIsNeverFreed(states: seq<State>, events: seq<Event>, a: Addr, i: nat, j: nat)
    requires Interleaving(states, events) && i <= j <= |events| && a in states[i].objects
    requires HeldThroughout(states, events, a, i, j)
    ensures a in states[j].objects
    ensures forall k :: i <= k < j && events[k].Allocate? ==> events[k].a != a
    ensures (forall k :: i <= k < j && events[k].Assign? ==> events[k].a != a) ==> states[j].objects[a] == states[i].objects[a]
    decreases j - i
  {
    hide Step, HeldAt;
    if i < j {
      ReachableIsNeverFreed(states, events, a, i, j - 1);
      RawAreApart(states, events, j - 1);
      StepKeepsHeld(states[j - 1], events[j - 1], states[j], a);
    }
  }

  // Cells handed out but not constructed.

  /** A collection spares such a cell if and only if it lies in a block or the collection is off the main thread. */
  lemma RawSurvivesIff(s: State, e: Event, t: State, a: Addr)
    requires e.Collect? && Step(s, e, t) && a in s.raw
    ensures a in t.raw <==> a.Slab? || !e.main
  {}

  /** Two steps that lose one: a large cell is handed out, and a collection comes before its constructor. */
  lemma LargeCellIsLost(s: State, p: nat) returns (t: State, u: State)
    requires s.raw !! s.objects.Keys && Oversize(p) !in s.objects && Oversize(p) !in s.raw
    ensures Interleaving([s, t, u], [Allocate(Oversize(p)), Collect([], [], [], true)])
    ensures Oversize(p) in t.raw && Oversize(p) !in u.raw && Oversize(p) !in u.objects
  {
    hide Reached, Reachable;
    t := s.(raw := s.raw + {Oversize(p)});
    var e := Collect([], [], [], true);
    u := State(Survivors(t.objects, Reached(t, e), true), (set x | x in t.raw && x.Slab?), t.protected);
    var states, events := [s, t, u], [Allocate(Oversize(p)), e];
    assert Step(states[0], events[0], states[1]);
    assert Step(states[1], events[1], states[2]);
  }
}
