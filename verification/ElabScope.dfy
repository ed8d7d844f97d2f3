/**
 * Elaboration of module instances into a tree of scopes, with the check that bounds recursive
 * instantiation.
 */
module ElabScope {
  import opened Prelude

  type Name = string

  datatype Kind = Module(mod: Name) | GenBlock | OtherScope

  /** The name of a scope; the instances of an array are numbered. */
  datatype HName = HName(base: Name, index: Option<int>)

  /** A scope, with its parent's position: parents come before their children. */
  datatype Scope = Scope(kind: Kind, name: HName, parent: Option<nat>)

  /** An array of instances whose elaboration waits until its bounds can be evaluated. */
  datatype WorkItem = WorkItem(mod: Name, name: Name, sc: nat)

  predicate ParentsFirst(scopes: seq<Scope>) {
    forall i | 0 <= i < |scopes| :: scopes[i].parent.Some? ==> scopes[i].parent.value < i
  }

  /** The kinds of the scope and its ancestors, from the scope up. */
  function PathUp(scopes: seq<Scope>, sc: nat): (path: seq<Kind>)
    requires ParentsFirst(scopes) && sc < |scopes|
    ensures path != [] && path[0] == scopes[sc].kind
    decreases sc
  {
    [scopes[sc].kind] + if scopes[sc].parent.None? then [] else PathUp(scopes, scopes[sc].parent.value)
  }

  /** How many scopes of a path are instances of the module. */
  function Nested(path: seq<Kind>, mod: Name): nat {
    if path == [] then 0 else Nested(path[1..], mod) + if path[0] == Module(mod) then 1 else 0
  }

  datatype Verdict = Accepted | WithinItself | TooDeep

  /** The scan of a path for instances of the module. */
  function Scan(path: seq<Kind>, mod: Name, limit: nat, rlCount: nat, inGenblk: bool): Verdict {
    if path == [] then Accepted
    else if path[0] == GenBlock then Scan(path[1..], mod, limit, rlCount, true)
    else if path[0] != Module(mod) then Scan(path[1..], mod, limit, rlCount, inGenblk)
    else if !inGenblk then WithinItself
    else if rlCount + 1 > limit then TooDeep
    else Scan(path[1..], mod, limit, rlCount + 1, inGenblk)
  }

  /** The innermost instance of the module, if there is one, is outside some generate block. */
  predicate Guarded(path: seq<Kind>, mod: Name) {
    path == [] || path[0] == GenBlock || (path[0] != Module(mod) && Guarded(path[1..], mod))
  }

  /**
   * The scan accepts exactly if there are at most limit instances of the module on the path, and
   * a generate block before the first of them.
   */
  lemma {:induction false} ScanExactly(path: seq<Kind>, mod: Name, limit: nat, rlCount: nat, inGenblk: bool)
    requires rlCount <= limit
    ensures Scan(path, mod, limit, rlCount, inGenblk) ==
      if !inGenblk && !Guarded(path, mod) then WithinItself
      else if rlCount + Nested(path, mod) > limit then TooDeep
      else Accepted
  {
    if path != [] {
      if path[0] == GenBlock {
        ScanExactly(path[1..], mod, limit, rlCount, true);
      } else if path[0] != Module(mod) {
        ScanExactly(path[1..], mod, limit, rlCount, inGenblk);
      } else if inGenblk && rlCount + 1 <= limit {
        ScanExactly(path[1..], mod, limit, rlCount + 1, inGenblk);
      }
    }
  }

  // ----- the design -----

  /** No path holds more than limit + 1 instances of one module. */
  ghost predicate Bounded(scopes: seq<Scope>, limit: nat)
    requires ParentsFirst(scopes)
  {
    forall sc, mod | 0 <= sc < |scopes| :: Nested(PathUp(scopes, sc), mod) <= limit + 1
  }

  /** Between an instance and the next one of the same module above it there is a generate block. */
  ghost predicate Separated(scopes: seq<Scope>)
    requires ParentsFirst(scopes)
  {
    forall sc | 0 <= sc < |scopes| && scopes[sc].kind.Module? && scopes[sc].parent.Some? ::
      Guarded(PathUp(scopes, scopes[sc].parent.value), scopes[sc].kind.mod)
  }

  /** The check accepts an instance of the module in the scope. */
  predicate Allowed(scopes: seq<Scope>, sc: nat, mod: Name, limit: nat)
    requires ParentsFirst(scopes) && sc < |scopes|
  {
    Guarded(PathUp(scopes, sc), mod) && Nested(PathUp(scopes, sc), mod) <= limit
  }

  /** Instances that wait were accepted. */
  ghost predicate WaitingAccepted(scopes: seq<Scope>, work: seq<WorkItem>, limit: nat)
    requires ParentsFirst(scopes)
  {
    forall k | 0 <= k < |work| :: work[k].sc < |scopes| && Allowed(scopes, work[k].sc, work[k].mod, limit)
  }

  /** New scopes do not change the paths of old ones. */
  lemma {:induction false} PathStays(scopes: seq<Scope>, scopes': seq<Scope>, sc: nat)
    requires ParentsFirst(scopes) && ParentsFirst(scopes') && scopes <= scopes' && sc < |scopes|
    ensures PathUp(scopes', sc) == PathUp(scopes, sc)
    decreases sc
  {
    if scopes[sc].parent.Some? {
      PathStays(scopes, scopes', scopes[sc].parent.value);
    }
  }

  lemma AddedScope(scopes: seq<Scope>, s: Scope, limit: nat, work: seq<WorkItem>)
    requires ParentsFirst(scopes) && Bounded(scopes, limit) && Separated(scopes) && WaitingAccepted(scopes, work, limit)
    requires s.parent.Some? ==> s.parent.value < |scopes|
    requires s.kind.Module? && s.parent.Some? ==> Allowed(scopes, s.parent.value, s.kind.mod, limit)
    ensures ParentsFirst(scopes + [s]) && Bounded(scopes + [s], limit) && Separated(scopes + [s])
    ensures WaitingAccepted(scopes + [s], work, limit)
  {
    var scopes' := scopes + [s];
    forall sc: nat, mod | sc < |scopes'| ensures Nested(PathUp(scopes', sc), mod) <= limit + 1 {
      if sc < |scopes| {
        PathStays(scopes, scopes', sc);
      } else {
        AddedPath(scopes, s, mod);
      }
    }
    StillWaiting(scopes, scopes', limit, work);
    AddedSeparated(scopes, s);
  }

  lemma AddedSeparated(scopes: seq<Scope>, s: Scope)
    requires ParentsFirst(scopes) && Separated(scopes) && ParentsFirst(scopes + [s])
    requires s.parent.Some? ==> s.parent.value < |scopes|
    requires s.kind.Module? && s.parent.Some? ==> Guarded(PathUp(scopes, s.parent.value), s.kind.mod)
    ensures Separated(scopes + [s])
  {
    var scopes' := scopes + [s];
    forall sc | 0 <= sc < |scopes'| && scopes'[sc].kind.Module? && scopes'[sc].parent.Some?
      ensures Guarded(PathUp(scopes', scopes'[sc].parent.value), scopes'[sc].kind.mod)
    {
      PathStays(scopes, scopes', scopes'[sc].parent.value);
    }
  }

  lemma StillWaiting(scopes: seq<Scope>, scopes': seq<Scope>, limit: nat, work: seq<WorkItem>)
    requires ParentsFirst(scopes) && ParentsFirst(scopes') && scopes <= scopes'
    requires WaitingAccepted(scopes, work, limit)
    ensures WaitingAccepted(scopes', work, limit)
  {
    forall k | 0 <= k < |work| ensures work[k].sc < |scopes'| && Allowed(scopes', work[k].sc, work[k].mod, limit) {
      PathStays(scopes, scopes', work[k].sc);
    }
  }

  /** The path of a new scope counts one more instance than its parent's if the scope is one. */
  lemma AddedPath(scopes: seq<Scope>, s: Scope, mod: Name)
    requires ParentsFirst(scopes) && (s.parent.Some? ==> s.parent.value < |scopes|)
    ensures ParentsFirst(scopes + [s])
    ensures Nested(PathUp(scopes + [s], |scopes|), mod)
         == (if s.parent.Some? then Nested(PathUp(scopes, s.parent.value), mod) else 0)
            + (if s.kind == Module(mod) then 1 else 0)
  {
    var scopes' := scopes + [s];
    var path := PathUp(scopes', |scopes|);
    if s.parent.Some? {
      PathStays(scopes, scopes', s.parent.value);
      assert path[1..] == PathUp(scopes, s.parent.value);
    }
  }

  class Design {
    const limit: nat
    /** The genvars and the parameters of each scope. */
    const genvars: nat -> set<Name>
    const params: nat -> set<Name>
    var scopes: seq<Scope>
    var work: seq<WorkItem>
    var errors: nat

    constructor (limit: nat, genvars: nat -> set<Name>, params: nat -> set<Name>)
      ensures Valid() && scopes == [] && work == [] && errors == 0
      ensures this.limit == limit && this.genvars == genvars && this.params == params
    {
      this.limit, this.genvars, this.params := limit, genvars, params;
      scopes, work, errors := [], [], 0;
    }

    ghost predicate Valid()
      reads this
    {
      && ParentsFirst(scopes) && Bounded(scopes, limit) && Separated(scopes) && WaitingAccepted(scopes, work, limit)
    }

    /** A module of the root of the hierarchy. */
    method AddRoot(mod: Name)
      requires Valid()
      modifies this
      ensures Valid() && scopes == old(scopes) + [Scope(Module(mod), HName(mod, None), None)]
      ensures work == old(work) && errors == old(errors)
    {
      AddedScope(scopes, Scope(Module(mod), HName(mod, None), None), limit, work);
      scopes := scopes + [Scope(Module(mod), HName(mod, None), None)];
    }

    /** A generate block, or another scope that is not a module. */
    method AddScope(kind: Kind, name: HName, sc: nat)
      requires Valid() && !kind.Module? && sc < |scopes|
      modifies this
      ensures Valid() && scopes == old(scopes) + [Scope(kind, name, Some(sc))]
      ensures work == old(work) && errors == old(errors)
    {
      AddedScope(scopes, Scope(kind, name, Some(sc)), limit, work);
      scopes := scopes + [Scope(kind, name, Some(sc))];
    }

    /** There is a scope of this name in sc. */
    predicate HasChild(sc: nat, name: HName)
      reads this
    {
      exists i | 0 <= i < |scopes| :: scopes[i].parent == Some(sc) && scopes[i].name == name
    }

    /** Scanning the current scope and its parents for instances of the module. */
    method CheckRecursion(mod: Name, sc: nat) returns (v: Verdict)
      requires Valid() && sc < |scopes|
      ensures v == Scan(PathUp(scopes, sc), mod, limit, 0, false)
    {
      var rlCount := 0;
      var inGenblk := false;
      var scn: Option<nat> := Some(sc);
      ghost var rest := PathUp(scopes, sc);
      while scn.Some?
        invariant scn.Some? ==> scn.value < |scopes| && rest == PathUp(scopes, scn.value)
        invariant scn.None? ==> rest == []
        invariant Scan(PathUp(scopes, sc), mod, limit, 0, false) == Scan(rest, mod, limit, rlCount, inGenblk)
        decreases if scn.Some? then scn.value + 1 else 0
      {
        var s := scopes[scn.value];
        assert rest[1..] == if s.parent.None? then [] else PathUp(scopes, s.parent.value);
        rest := rest[1..];
        scn := s.parent;
        if s.kind == GenBlock {
          inGenblk := true;
          continue;
        }
        if !s.kind.Module? {
          continue;
        }
        if s.kind.mod != mod {
          continue;
        }
        if inGenblk {
          rlCount := rlCount + 1;
          if rlCount > limit {
            return TooDeep;
          }
          continue;
        }
        return WithinItself;
      }
      v := Accepted;
    }

    /** How many genvars and parameters of the scope have the name. */
    function NameClashes(sc: nat, name: Name): nat {
      (if name in genvars(sc) then 1 else 0) + if name in params(sc) then 1 else 0
    }

    /**
     * A module instance in a scope. It is refused without a name, beside a scope of the same name,
     * or by the recursion check; an array of instances has to wait. The name of a genvar or of a
     * parameter is an error, too, but the instance is made.
     */
    method ElaborateScopeMod(mod: Name, name: Name, sc: nat, isArray: bool) returns (ok: bool)
      requires Valid() && sc < |scopes|
      modifies this
      ensures Valid() && old(scopes) <= scopes
      ensures ok <==> name != "" && !old(HasChild(sc, HName(name, None)))
                      && old(Allowed(scopes, sc, mod, limit))
      ensures !ok ==> scopes == old(scopes) && work == old(work)
      ensures errors == old(errors) + (if ok then 0 else 1)
                        + (if name == "" || old(HasChild(sc, HName(name, None))) then 0 else NameClashes(sc, name))
      ensures ok && isArray ==> scopes == old(scopes) && work == old(work) + [WorkItem(mod, name, sc)]
      ensures ok && !isArray ==> work == old(work)
      ensures ok && !isArray ==> scopes == old(scopes) + [Scope(Module(mod), HName(name, None), Some(sc))]
    {
      ScanExactly(PathUp(scopes, sc), mod, limit, 0, false);
      if name == "" || HasChild(sc, HName(name, None)) {
        errors := errors + 1;
        return false;
      }
      if name in genvars(sc) {
        errors := errors + 1;
      }
      if name in params(sc) {
        errors := errors + 1;
      }
      var v := CheckRecursion(mod, sc);
      if v != Accepted {
        errors := errors + 1;
        return false;
      }
      if isArray {
        work := work + [WorkItem(mod, name, sc)];
      } else {
        ElaborateInstances(mod, name, sc, None);
      }
      ok := true;
    }

    /** One instance, or the instances of an array numbered from its low to its high bound. */
    method ElaborateInstances(mod: Name, name: Name, sc: nat, range: Option<(int, int)>)
      requires Valid() && sc < |scopes| && Allowed(scopes, sc, mod, limit)
      modifies this
      ensures Valid() && work == old(work) && errors == old(errors)
      ensures scopes == old(scopes) + Instances(mod, name, sc, range)
    {
      var low, high, instanceCount := 0, 0, 1;
      var isArray := false;
      if range.Some? {
        isArray := true;
        high, low := range.value.0, range.value.1;
        instanceCount := if high > low then high - low + 1 else low - high + 1;
      }
      ghost var before := scopes;
      ghost var all := Instances(mod, name, sc, range);
      for idx := 0 to instanceCount
        invariant Valid() && sc < |scopes| && work == old(work) && errors == old(errors)
        invariant scopes == before + all[..idx]
      {
        var useName := HName(name, None);
        if isArray {
          useName := HName(name, Some(if low < high then low + idx else low - idx));
        }
        PathStays(before, scopes, sc);
        assert all[idx] == Scope(Module(mod), useName, Some(sc)) && all[..idx + 1] == all[..idx] + [all[idx]];
        AddInstance(mod, useName, sc);
      }
      assert all[..|all|] == all;
    }

    /** One instance's scope. */
    method AddInstance(mod: Name, name: HName, sc: nat)
      requires Valid() && sc < |scopes| && Allowed(scopes, sc, mod, limit)
      modifies this
      ensures Valid() && scopes == old(scopes) + [Scope(Module(mod), name, Some(sc))]
      ensures work == old(work) && errors == old(errors)
    {
      AddedScope(scopes, Scope(Module(mod), name, Some(sc)), limit, work);
      scopes := scopes + [Scope(Module(mod), name, Some(sc))];
    }

    /** Elaborating the first array that waits, once its bounds are known. */
    method RunWorkItem(range: (int, int))
      requires Valid() && work != []
      modifies this
      ensures Valid() && work == old(work)[1..] && errors == old(errors)
      ensures scopes == old(scopes) + Instances(old(work)[0].mod, old(work)[0].name, old(work)[0].sc, Some(range))
    {
      var item := work[0];
      work := work[1..];
      ElaborateInstances(item.mod, item.name, item.sc, Some(range));
    }
  }

  /** The scopes of the instances, in the order they are made. */
  function Instances(mod: Name, name: Name, sc: nat, range: Option<(int, int)>): (ss: seq<Scope>)
    ensures |ss| == if range.None? then 1 else Span(range.value)
  {
    match range
    case None => [Scope(Module(mod), HName(name, None), Some(sc))]
    case Some(r) =>
      seq(Span(r), i requires 0 <= i < Span(r) => Scope(Module(mod), HName(name, Some(Number(r, i))), Some(sc)))
  }

  /** How many instances an array of these bounds has. */
  function Span(r: (int, int)): nat {
    if r.0 > r.1 then r.0 - r.1 + 1 else r.1 - r.0 + 1
  }

  /** The number of the i-th instance, counting from the low bound towards the high one. */
  function Number(r: (int, int), i: nat): int {
    if r.1 < r.0 then r.1 + i else r.1 - i
  }

  /** The instances are numbered by exactly the integers between the bounds, each once, from the low bound on. */
  lemma NumbersBetween(r: (int, int), n: int)
    ensures (exists i: nat :: i < Span(r) && Number(r, i) == n) <==> (r.0 <= n <= r.1 || r.1 <= n <= r.0)
    ensures forall i: nat, j: nat :: Number(r, i) == Number(r, j) ==> i == j
    ensures Number(r, 0) == r.1 && Number(r, Span(r) - 1) == r.0
    ensures forall i: nat, j: nat :: i < j < Span(r) ==> if r.1 < r.0 then Number(r, i) < Number(r, j)
                                                         else Number(r, j) < Number(r, i)
  {
    if r.0 <= n <= r.1 || r.1 <= n <= r.0 {
      var i: nat := if r.1 < r.0 then n - r.1 else r.1 - n;
      assert i < Span(r) && Number(r, i) == n;
    }
  }

  // ----- the depth of the hierarchy -----

  /** How many scopes of a path are modules. */
  function Depth(path: seq<Kind>): nat {
    if path == [] then 0 else Depth(path[1..]) + if path[0].Module? then 1 else 0
  }

  /** The modules of a path. */
  function ModulesOf(path: seq<Kind>): set<Name> {
    if path == [] then {} else ModulesOf(path[1..]) + if path[0].Module? then {path[0].mod} else {}
  }

  /** A path without the instances of one module. */
  function Without(path: seq<Kind>, mod: Name): seq<Kind> {
    if path == [] then []
    else if path[0] == Module(mod) then Without(path[1..], mod) else [path[0]] + Without(path[1..], mod)
  }

  lemma {:induction false} WithoutCounts(path: seq<Kind>, mod: Name, other: Name)
    ensures Depth(path) == Depth(Without(path, mod)) + Nested(path, mod)
    ensures ModulesOf(Without(path, mod)) == ModulesOf(path) - {mod}
    ensures Nested(Without(path, mod), other) <= Nested(path, other)
  {
    if path != [] {
      WithoutCounts(path[1..], mod, other);
      var rest := Without(path[1..], mod);
      assert ([path[0]] + rest)[1..] == rest;
    }
  }

  /** If no module occurs more than n times on a path, its depth is at most n times the modules there are. */
  lemma {:induction false} Pigeonhole(path: seq<Kind>, modules: set<Name>, n: nat)
    requires ModulesOf(path) <= modules && forall mod :: Nested(path, mod) <= n
    ensures Depth(path) <= |modules| * n
    decreases modules
  {
    if modules == {} {
      NoModules(path);
    } else {
      var mod :| mod in modules;
      var rest := modules - {mod};
      forall other ensures Nested(Without(path, mod), other) <= n {
        WithoutCounts(path, mod, other);
      }
      WithoutCounts(path, mod, mod);
      Pigeonhole(Without(path, mod), rest, n);
      assert |modules| == |rest| + 1;
      OneMore(|rest|, n);
    }
  }

  lemma OneMore(k: nat, n: nat)
    ensures (k + 1) * n == k * n + n
  {
  }

  lemma {:induction false} NoModules(path: seq<Kind>)
    requires ModulesOf(path) == {}
    ensures Depth(path) == 0
  {
    if path != [] {
      NoModules(path[1..]);
    }
  }

  // ----- whole runs -----

  /** What elaboration may do next. */
  datatype Step =
    | Root(mod: Name)
    | OtherChild(kind: Kind, hname: HName, sc: nat)
    | Instance(mod: Name, name: Name, sc: nat, isArray: bool)
    | RunWork(range: (int, int))

  /** Carrying out steps, in any order and number; those that make no sense are passed over. */
  method Run(limit: nat, genvars: nat -> set<Name>, params: nat -> set<Name>, steps: seq<Step>) returns (des: Design)
    ensures des.Valid() && des.limit == limit
  {
    des := new Design(limit, genvars, params);
    for i := 0 to |steps|
      invariant des.Valid() && fresh(des)
    {
      match steps[i]
      case Root(mod) =>
        des.AddRoot(mod);
      case OtherChild(kind, hname, sc) =>
        if !kind.Module? && sc < |des.scopes| {
          des.AddScope(kind, hname, sc);
        }
      case Instance(mod, name, sc, isArray) =>
        if sc < |des.scopes| {
          var ok := des.ElaborateScopeMod(mod, name, sc, isArray);
        }
      case RunWork(range) =>
        if des.work != [] {
          des.RunWorkItem(range);
        }
    }
  }

  /**
   * However elaboration has run, no path from a scope to the root holds more than limit + 1
   * instances of one module, and with M modules none is deeper than M * (limit + 1).
   */
  lemma DepthIsBounded(scopes: seq<Scope>, limit: nat, sc: nat, modules: set<Name>)
    requires ParentsFirst(scopes) && Bounded(scopes, limit) && sc < |scopes|
    requires ModulesOf(PathUp(scopes, sc)) <= modules
    ensures Depth(PathUp(scopes, sc)) <= |modules| * (limit + 1)
  {
    Pigeonhole(PathUp(scopes, sc), modules, limit + 1);
  }
}
