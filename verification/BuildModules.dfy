/**
 The build module tree of Build/build_modules.js: selected modules run their build
 function, one kind of module recurses by itself, and the CodeWarrior IDE is opened
 on demand and closed after the last module that needs it.
 */
module BuildModules {
  import opened Sequences

  datatype Func =
    | BuildNode
    | BuildServer
    | BuildMcp
    | BuildMcpBugWarning
    | BuildMcpNoCheck
    | BuildOther  // the functions that neither recurse nor touch the IDE

  /** A module's id is its path from the root, as __init_module numbers it. */
  type Path = seq<nat>

  datatype Module = Module(func: Func, id: Path, selected: bool, submods: seq<Module>)

  ghost predicate Numbered(m: Module, id: Path)
    decreases m
  {
    m.id == id && forall i :: 0 <= i < |m.submods| ==> Numbered(m.submods[i], id + [i])
  }

  predicate UsesIde(f: Func) {
    f.BuildMcp? || f.BuildMcpBugWarning? || f.BuildMcpNoCheck?
  }

  // --------------------------------------------------------------------------
  // Preorder
  // --------------------------------------------------------------------------

  function Preorder(m: Module): (order: seq<Module>)
    ensures order != [] && order[0] == m
    decreases m, 0
  {
    [m] + PreorderAll(m.submods, 0)
  }

  /** The preorder of the submodules from index `from` on. */
  function PreorderAll(ms: seq<Module>, from: nat): seq<Module>
    requires from <= |ms|
    decreases ms, |ms| - from
  {
    if from == |ms| then [] else Preorder(ms[from]) + PreorderAll(ms, from + 1)
  }

  predicate Distinct(order: seq<Module>) {
    forall i, j :: 0 <= i < j < |order| ==> order[i].id != order[j].id
  }

  /** The order of the tree: a module before its submodules, and those before later siblings. */
  predicate Before(a: Path, b: Path) {
    b != [] && (a == [] || a[0] < b[0] || (a[0] == b[0] && Before(a[1..], b[1..])))
  }

  lemma {:induction false} NotBeforeItself(a: Path)
    ensures !Before(a, a)
  {
    if a != [] {
      NotBeforeItself(a[1..]);
    }
  }

  lemma {:induction false} BeforeBelow(id: Path, a: Path, b: Path)
    requires id <= a && id <= b && |b| > |id|
    requires a == id || (|a| > |id| && a[|id|] < b[|id|])
    ensures Before(a, b)
  {
    if id != [] {
      BeforeBelow(id[1..], a[1..], b[1..]);
    }
  }

  predicate Sorted(order: seq<Module>) {
    forall i, j :: 0 <= i < j < |order| ==> Before(order[i].id, order[j].id)
  }

  lemma SortedIsDistinct(order: seq<Module>)
    requires Sorted(order)
    ensures Distinct(order)
  {
    forall i, j | 0 <= i < j < |order|
      ensures order[i].id != order[j].id
    {
      NotBeforeItself(order[i].id);
    }
  }

  /** The path of indices leads from m to x. */
  predicate Leads(m: Module, path: Path, x: Module)
    decreases path
  {
    if path == [] then x == m
    else path[0] < |m.submods| && Leads(m.submods[path[0]], path[1..], x)
  }

  /** The preorder holds exactly the modules that some path leads to. */
  lemma {:induction false} PreorderComplete(m: Module, path: Path, x: Module)
    requires Leads(m, path, x)
    ensures x in Preorder(m)
    decreases path
  {
    if path == [] {
      assert Preorder(m)[0] == x;
    } else {
      PreorderComplete(m.submods[path[0]], path[1..], x);
      InSubmods(m.submods, 0, path[0], x);
    }
  }

  lemma {:induction false} InSubmods(ms: seq<Module>, from: nat, i: nat, x: Module)
    requires from <= i < |ms| && x in Preorder(ms[i])
    ensures x in PreorderAll(ms, from)
    decreases i - from
  {
    if from < i {
      InSubmods(ms, from + 1, i, x);
    }
  }

  lemma {:induction false} PreorderSound(m: Module, x: Module) returns (path: Path)
    requires x in Preorder(m)
    ensures Leads(m, path, x)
    decreases m, 0
  {
    if x == m {
      path := [];
    } else {
      var i, below := SubmodsSound(m.submods, 0, x);
      path := [i] + below;
      assert path[1..] == below;
    }
  }

  lemma {:induction false} SubmodsSound(ms: seq<Module>, from: nat, x: Module) returns (i: nat, path: Path)
    requires from <= |ms| && x in PreorderAll(ms, from)
    ensures i < |ms| && Leads(ms[i], path, x)
    decreases ms, |ms| - from
  {
    if x in Preorder(ms[from]) {
      i := from;
      path := PreorderSound(ms[from], x);
    } else {
      i, path := SubmodsSound(ms, from + 1, x);
    }
  }

  /** Every id below a module extends the module's own, and the preorder visits them in order. */
  lemma {:induction false} IdsExtend(m: Module, id: Path)
    requires Numbered(m, id)
    ensures forall k :: 0 <= k < |Preorder(m)| ==> id <= Preorder(m)[k].id
    ensures Sorted(Preorder(m)) && Distinct(Preorder(m))
    decreases m, 0
  {
    ChildIdsExtend(m, id, 0);
    var children := PreorderAll(m.submods, 0);
    forall i, j | 0 <= i < j < |Preorder(m)|
      ensures Before(Preorder(m)[i].id, Preorder(m)[j].id)
    {
      assert Preorder(m)[j] == children[j - 1];
      if i > 0 {
        assert Preorder(m)[i] == children[i - 1];
      } else {
        BeforeBelow(id, id, Preorder(m)[j].id);
      }
    }
    SortedIsDistinct(Preorder(m));
  }

  lemma {:induction false} ChildIdsExtend(m: Module, id: Path, from: nat)
    requires Numbered(m, id) && from <= |m.submods|
    ensures forall k :: 0 <= k < |PreorderAll(m.submods, from)| ==>
      var child := PreorderAll(m.submods, from)[k].id;
      id <= child && |child| > |id| && child[|id|] >= from
    ensures Sorted(PreorderAll(m.submods, from))
    decreases m, 0, |m.submods| - from
  {
    if from < |m.submods| {
      var first, rest := Preorder(m.submods[from]), PreorderAll(m.submods, from + 1);
      IdsExtend(m.submods[from], id + [from]);
      ChildIdsExtend(m, id, from + 1);
      var all := PreorderAll(m.submods, from);
      assert all == first + rest;
      forall k | 0 <= k < |first|
        ensures id <= first[k].id && |first[k].id| > |id| && first[k].id[|id|] == from
      {
        assert id + [from] <= first[k].id;
      }
      forall i, j | 0 <= i < |first| && 0 <= j < |rest|
        ensures Before(first[i].id, rest[j].id)
      {
        BeforeBelow(id, first[i].id, rest[j].id);
      }
    }
  }

  // --------------------------------------------------------------------------
  // What a run does, as functions of the preorder
  // --------------------------------------------------------------------------

  datatype Action =
    | Call(id: Path)        // this.func( module, config )
    | Confirm(id: Path)     // the question of the bug warning
    | CreateIde(id: Path)
    | BuildProject(id: Path)
    | DeleteIde(id: Path)

  predicate McpAmong(later: seq<Module>) {
    exists k :: 0 <= k < |later| && later[k].func.BuildMcp? && later[k].selected
  }

  /** The IDE is kept only by a build_mcp module with another one selected later. */
  predicate KeepsIde(m: Module, later: seq<Module>) {
    m.func.BuildMcp? && McpAmong(later)
  }

  /** The IDE after one module, given those that follow it in the whole tree. */
  predicate IdeAfter(open: bool, m: Module, later: seq<Module>) {
    if m.selected && UsesIde(m.func) then KeepsIde(m, later) else open
  }

  function ActionsOf(open: bool, m: Module, later: seq<Module>): seq<Action> {
    if !m.selected then []
    else if !UsesIde(m.func) then [Call(m.id)]
    else [Call(m.id)] + (Question(m) + ProjectActions(open, m, later))
  }

  function Question(m: Module): seq<Action> {
    if m.func.BuildMcpBugWarning? then [Confirm(m.id)] else []
  }

  function ProjectActions(open: bool, m: Module, later: seq<Module>): seq<Action> {
    OpenActions(open, m) + [BuildProject(m.id)] + CloseActions(m, later)
  }

  function OpenActions(open: bool, m: Module): seq<Action> {
    if open then [] else [CreateIde(m.id)]
  }

  function CloseActions(m: Module, later: seq<Module>): seq<Action> {
    if KeepsIde(m, later) then [] else [DeleteIde(m.id)]
  }

  /** All actions of a stretch of the preorder followed by `after`. */
  function Trace(open: bool, part: seq<Module>, after: seq<Module>): seq<Action>
    decreases |part|
  {
    if part == [] then []
    else
      ActionsOf(open, part[0], part[1..] + after)
      + Trace(IdeAfter(open, part[0], part[1..] + after), part[1..], after)
  }

  predicate IdeAtEnd(open: bool, part: seq<Module>, after: seq<Module>)
    decreases |part|
  {
    if part == [] then open
    else IdeAtEnd(IdeAfter(open, part[0], part[1..] + after), part[1..], after)
  }

  lemma {:induction false} TraceAppend(open: bool, a: seq<Module>, b: seq<Module>, after: seq<Module>)
    ensures IdeAtEnd(open, a + b, after) == IdeAtEnd(IdeAtEnd(open, a, b + after), b, after)
    ensures Trace(open, a + b, after) == Trace(open, a, b + after) + Trace(IdeAtEnd(open, a, b + after), b, after)
    decreases |a|
  {
    if a == [] {
      assert a + b == b;
    } else {
      var later := a[1..] + (b + after);
      assert (a + b)[1..] == a[1..] + b;
      assert a[1..] + b + after == later;
      var next := IdeAfter(open, a[0], later);
      TraceAppend(next, a[1..], b, after);
      Regroup(ActionsOf(open, a[0], later), Trace(next, a[1..], b + after),
              Trace(IdeAtEnd(next, a[1..], b + after), b, after));
    }
  }

  // --------------------------------------------------------------------------
  // What the traces guarantee
  // --------------------------------------------------------------------------

  datatype Kind = Calling | Asking | Creating | Building | Deleting

  function KindOf(a: Action): Kind {
    match a
    case Call(_) => Calling
    case Confirm(_) => Asking
    case CreateIde(_) => Creating
    case BuildProject(_) => Building
    case DeleteIde(_) => Deleting
  }

  /** For which modules a trace takes actions of a kind, in order. */
  function IdsOf(kind: Kind, trace: seq<Action>): seq<Path> {
    if trace == [] then []
    else (if KindOf(trace[0]) == kind then [trace[0].id] else []) + IdsOf(kind, trace[1..])
  }

  /** The selected modules that run one of the given functions. */
  function Running(funcs: set<Func>, order: seq<Module>): seq<Path> {
    if order == [] then []
    else (if order[0].selected && order[0].func in funcs then [order[0].id] else []) + Running(funcs, order[1..])
  }

  function SelectedIds(order: seq<Module>): seq<Path> {
    if order == [] then []
    else (if order[0].selected then [order[0].id] else []) + SelectedIds(order[1..])
  }

  /** The state of the IDE after a trace; Misused if it was misused on the way. */
  datatype Ide = Open | Closed | Misused

  function IdeOf(open: bool): Ide {
    if open then Open else Closed
  }

  function Drive(ide: Ide, trace: seq<Action>): Ide
    decreases |trace|
  {
    if trace == [] then ide else Drive(DriveOne(ide, trace[0]), trace[1..])
  }

  /** Create only when closed, build and delete only when open. */
  function DriveOne(ide: Ide, a: Action): Ide {
    match a
    case Call(_) => ide
    case Confirm(_) => ide
    case CreateIde(_) => if ide == Closed then Open else Misused
    case BuildProject(_) => if ide == Open then Open else Misused
    case DeleteIde(_) => if ide == Open then Closed else Misused
  }

  lemma {:induction false} DriveAppend(ide: Ide, a: seq<Action>, b: seq<Action>)
    ensures Drive(ide, a + b) == Drive(Drive(ide, a), b)
    decreases |a|
  {
    if a == [] {
      assert a + b == b;
    } else {
      assert (a + b)[1..] == a[1..] + b;
      DriveAppend(DriveOne(ide, a[0]), a[1..], b);
    }
  }

  lemma {:induction false} IdsAppend(kind: Kind, a: seq<Action>, b: seq<Action>)
    ensures IdsOf(kind, a + b) == IdsOf(kind, a) + IdsOf(kind, b)
  {
    if a == [] {
      assert a + b == b;
    } else {
      assert (a + b)[1..] == a[1..] + b;
      IdsAppend(kind, a[1..], b);
    }
  }

  lemma IdsOfOne(kind: Kind, a: Action)
    ensures IdsOf(kind, [a]) == if KindOf(a) == kind then [a.id] else []
  {
  }

  /** What one module adds to the ids of a kind. */
  function OwnIds(kind: Kind, open: bool, m: Module, later: seq<Module>): seq<Path> {
    var wanted := m.selected && match kind
      case Calling => true
      case Asking => m.func.BuildMcpBugWarning?
      case Building => UsesIde(m.func)
      case Creating => UsesIde(m.func) && !open
      case Deleting => UsesIde(m.func) && !KeepsIde(m, later);
    if wanted then [m.id] else []
  }

  lemma {:induction false} ProjectIds(kind: Kind, open: bool, m: Module, later: seq<Module>)
    ensures IdsOf(kind, ProjectActions(open, m, later)) ==
      if kind == Building || (kind == Creating && !open) || (kind == Deleting && !KeepsIde(m, later)) then [m.id] else []
  {
    var create, build, close := OpenActions(open, m), [BuildProject(m.id)], CloseActions(m, later);
    IdsAppend(kind, create + build, close);
    IdsAppend(kind, create, build);
    IdsOfOne(kind, CreateIde(m.id));
    IdsOfOne(kind, BuildProject(m.id));
    IdsOfOne(kind, DeleteIde(m.id));
  }

  lemma {:induction false} OneModuleIds(kind: Kind, open: bool, m: Module, later: seq<Module>)
    ensures IdsOf(kind, ActionsOf(open, m, later)) == OwnIds(kind, open, m, later)
  {
    if m.selected {
      IdsOfOne(kind, Call(m.id));
      if UsesIde(m.func) {
        IdsAppend(kind, [Call(m.id)], Question(m) + ProjectActions(open, m, later));
        IdsAppend(kind, Question(m), ProjectActions(open, m, later));
        IdsOfOne(kind, Confirm(m.id));
        ProjectIds(kind, open, m, later);
      }
    }
  }

  lemma {:induction false} OneModule(open: bool, m: Module, later: seq<Module>)
    ensures Drive(IdeOf(open), ActionsOf(open, m, later)) == IdeOf(IdeAfter(open, m, later))
  {
    if m.selected && UsesIde(m.func) {
      var create, build, close := OpenActions(open, m), [BuildProject(m.id)], CloseActions(m, later);
      DriveAppend(IdeOf(open), create, build);
      DriveAppend(IdeOf(open), create + build, close);
      DriveAppend(IdeOf(open), Question(m), create + build + close);
      DriveAppend(IdeOf(open), [Call(m.id)], Question(m) + (create + build + close));
    }
  }

  lemma {:induction false} NextIds(kind: Kind, open: bool, part: seq<Module>, after: seq<Module>)
    requires part != []
    ensures var later := part[1..] + after;
      IdsOf(kind, Trace(open, part, after))
        == OwnIds(kind, open, part[0], later) + IdsOf(kind, Trace(IdeAfter(open, part[0], later), part[1..], after))
  {
    var later := part[1..] + after;
    OneModuleIds(kind, open, part[0], later);
    IdsAppend(kind, ActionsOf(open, part[0], later), Trace(IdeAfter(open, part[0], later), part[1..], after));
  }

  /** Each selected module is called exactly once, in preorder, and the IDE is never misused. */
  lemma {:induction false} TraceSafe(open: bool, part: seq<Module>, after: seq<Module>)
    ensures IdsOf(Calling, Trace(open, part, after)) == SelectedIds(part)
    ensures Drive(IdeOf(open), Trace(open, part, after)) == IdeOf(IdeAtEnd(open, part, after))
    decreases |part|
  {
    if part != [] {
      var later := part[1..] + after;
      var next := IdeAfter(open, part[0], later);
      OneModule(open, part[0], later);
      DriveAppend(IdeOf(open), ActionsOf(open, part[0], later), Trace(next, part[1..], after));
      NextIds(Calling, open, part, after);
      TraceSafe(next, part[1..], after);
    }
  }

  /** Every selected project is built exactly once, in preorder, whether or not the IDE is open already. */
  lemma {:induction false} ProjectsBuilt(open: bool, part: seq<Module>, after: seq<Module>)
    ensures IdsOf(Building, Trace(open, part, after)) == Running({BuildMcp, BuildMcpBugWarning, BuildMcpNoCheck}, part)
    ensures IdsOf(Asking, Trace(open, part, after)) == Running({BuildMcpBugWarning}, part)
    decreases |part|
  {
    if part != [] {
      NextIds(Building, open, part, after);
      NextIds(Asking, open, part, after);
      ProjectsBuilt(IdeAfter(open, part[0], part[1..] + after), part[1..], after);
    }
  }

  /** A trace without the opening and closing of the IDE. */
  function Work(trace: seq<Action>): seq<Action> {
    if trace == [] then []
    else (if trace[0].CreateIde? || trace[0].DeleteIde? then [] else [trace[0]]) + Work(trace[1..])
  }

  lemma {:induction false} WorkAppend(a: seq<Action>, b: seq<Action>)
    ensures Work(a + b) == Work(a) + Work(b)
  {
    if a == [] {
      assert a + b == b;
    } else {
      assert (a + b)[1..] == a[1..] + b;
      WorkAppend(a[1..], b);
    }
  }

  /** A selected module is called, then asked about, then built, before the next one is called. */
  lemma {:induction false} WorkInOrder(open: bool, m: Module, part: seq<Module>, after: seq<Module>)
    ensures var rest := Work(Trace(IdeAfter(open, m, part + after), part, after));
      Work(Trace(open, [m] + part, after)) ==
        if !m.selected then rest
        else match m.func
          case BuildMcp => [Call(m.id), BuildProject(m.id)] + rest
          case BuildMcpNoCheck => [Call(m.id), BuildProject(m.id)] + rest
          case BuildMcpBugWarning => [Call(m.id), Confirm(m.id), BuildProject(m.id)] + rest
          case _ => [Call(m.id)] + rest
  {
    var later := part + after;
    assert ([m] + part)[1..] == part;
    WorkAppend(ActionsOf(open, m, later), Trace(IdeAfter(open, m, later), part, after));
    OneModuleWork(open, m, later);
  }

  lemma {:induction false} OneModuleWork(open: bool, m: Module, later: seq<Module>)
    ensures Work(ActionsOf(open, m, later)) ==
      if !m.selected then []
      else if !UsesIde(m.func) then [Call(m.id)]
      else [Call(m.id)] + (Question(m) + [BuildProject(m.id)])
  {
    if m.selected && UsesIde(m.func) {
      WorkAppend([Call(m.id)], Question(m) + ProjectActions(open, m, later));
      WorkAppend(Question(m), ProjectActions(open, m, later));
      WorkOfProject(open, m, later);
    }
  }

  lemma {:induction false} WorkOfProject(open: bool, m: Module, later: seq<Module>)
    ensures Work(ProjectActions(open, m, later)) == [BuildProject(m.id)]
  {
    var create, build, close := OpenActions(open, m), [BuildProject(m.id)], CloseActions(m, later);
    WorkAppend(create + build, close);
    WorkAppend(create, build);
    assert Work(create) == [] && Work(close) == [] && Work(build) == build;
  }

  /** When only build_mcp modules use the IDE, the first of them opens it, once. */
  lemma {:induction false} OpenedByFirst(open: bool, order: seq<Module>)
    requires Running({BuildMcpBugWarning, BuildMcpNoCheck}, order) == []
    ensures var users := Running({BuildMcp}, order);
      IdsOf(Creating, Trace(open, order, [])) == if open || users == [] then [] else [users[0]]
    decreases |order|
  {
    if order != [] {
      var m, rest := order[0], order[1..];
      assert rest + [] == rest;
      NextIds(Creating, open, order, []);
      OpenedByFirst(IdeAfter(open, m, rest), rest);
      McpRunning(rest);
    }
  }

  /** And the last of them closes it, once. */
  lemma {:induction false} ClosedByLast(open: bool, order: seq<Module>)
    requires Running({BuildMcpBugWarning, BuildMcpNoCheck}, order) == []
    ensures var users := Running({BuildMcp}, order);
      IdsOf(Deleting, Trace(open, order, [])) == if users == [] then [] else [users[|users| - 1]]
    decreases |order|
  {
    if order != [] {
      var m, rest := order[0], order[1..];
      assert rest + [] == rest;
      NextIds(Deleting, open, order, []);
      ClosedByLast(IdeAfter(open, m, rest), rest);
      McpRunning(rest);
    }
  }

  lemma {:induction false} McpRunning(order: seq<Module>)
    ensures McpAmong(order) <==> Running({BuildMcp}, order) != []
  {
    if order != [] {
      var rest := order[1..];
      McpRunning(rest);
      if McpAmong(rest) {
        var k :| 0 <= k < |rest| && rest[k].func.BuildMcp? && rest[k].selected;
        assert order[k + 1] == rest[k];
      }
      if McpAmong(order) {
        var k :| 0 <= k < |order| && order[k].func.BuildMcp? && order[k].selected;
        assert k == 0 || order[k] == rest[k - 1];
      }
    }
  }

  predicate IdeUserAmong(order: seq<Module>) {
    exists k :: 0 <= k < |order| && UsesIde(order[k].func) && order[k].selected
  }

  /** A whole run ends with the IDE closed unless it started open and no module used it. */
  lemma {:induction false} ClosedAtEnd(open: bool, order: seq<Module>)
    ensures IdeAtEnd(open, order, []) <==> open && !IdeUserAmong(order)
    decreases |order|
  {
    if order != [] {
      var m, rest := order[0], order[1..];
      assert rest + [] == rest;
      ClosedAtEnd(IdeAfter(open, m, rest), rest);
      assert IdeUserAmong(order) <==> (UsesIde(m.func) && m.selected) || IdeUserAmong(rest) by {
        forall k | 0 <= k < |rest|
          ensures rest[k] == order[k + 1]
        {
        }
        if IdeUserAmong(rest) {
          var k :| 0 <= k < |rest| && UsesIde(rest[k].func) && rest[k].selected;
          assert UsesIde(order[k + 1].func) && order[k + 1].selected;
        }
      }
      if McpAmong(rest) {
        var k :| 0 <= k < |rest| && rest[k].func.BuildMcp? && rest[k].selected;
        assert UsesIde(rest[k].func);
      }
    }
  }

  /**
   In the middle of a run: the IDE is open exactly if the last module that used it runs build_mcp and
   a selected build_mcp module follows, or if it was open at the start and nothing used it.
   */
  lemma {:induction false} IdeInBetween(open: bool, done: seq<Module>, user: Module, idle: seq<Module>, after: seq<Module>)
    requires user.selected && user.func in {BuildMcp, BuildMcpBugWarning, BuildMcpNoCheck}
    requires Running({BuildMcp, BuildMcpBugWarning, BuildMcpNoCheck}, idle) == []
    ensures IdeAtEnd(open, done + [user] + idle, after) <==>
      user.func == BuildMcp && Running({BuildMcp}, idle + after) != []
    ensures IdeAtEnd(open, idle, after) == open
    decreases |done| + |idle|
  {
    var part := done + [user] + idle;
    if done != [] {
      assert part[1..] == done[1..] + [user] + idle;
      IdeInBetween(IdeAfter(open, done[0], part[1..] + after), done[1..], user, idle, after);
    } else {
      assert part[0] == user && part[1..] == idle;
      McpRunning(idle + after);
      IdleKeepsIde(IdeAfter(open, user, idle + after), idle, after);
    }
    IdleKeepsIde(open, idle, after);
  }

  lemma {:induction false} IdleKeepsIde(open: bool, idle: seq<Module>, after: seq<Module>)
    requires Running({BuildMcp, BuildMcpBugWarning, BuildMcpNoCheck}, idle) == []
    ensures IdeAtEnd(open, idle, after) == open
    decreases |idle|
  {
    if idle != [] {
      IdleKeepsIde(open, idle[1..], after);
    }
  }

  /** An IDE left open by an interrupted run stays open when nothing selected uses it. */
  lemma LeftoverStaysOpen(id: Path)
    ensures IdeAtEnd(true, [Module(BuildNode, id, true, [])], [])
  {
    ClosedAtEnd(true, [Module(BuildNode, id, true, [])]);
  }

  // --------------------------------------------------------------------------
  // The search for a later build_mcp module
  // --------------------------------------------------------------------------

  datatype Search = Search(foundMe: bool, existMcp: bool)

  /** check_mcp_module: modules that do not run build_mcp are not even compared. */
  function Check(args: Search, m: Module, me: Path): Search {
    if !m.func.BuildMcp? then args
    else
      var args := if args.foundMe && m.selected then args.(existMcp := true) else args;
      if m.id == me then args.(foundMe := true) else args
  }

  function CheckAll(args: Search, order: seq<Module>, me: Path): Search
    decreases |order|
  {
    if order == [] then args else CheckAll(Check(args, order[0], me), order[1..], me)
  }

  lemma {:induction false} CheckAppend(args: Search, a: seq<Module>, b: seq<Module>, me: Path)
    ensures CheckAll(args, a + b, me) == CheckAll(CheckAll(args, a, me), b, me)
    decreases |a|
  {
    if a == [] {
      assert a + b == b;
    } else {
      assert (a + b)[1..] == a[1..] + b;
      CheckAppend(Check(args, a[0], me), a[1..], b, me);
    }
  }

  /** Before the module itself nothing is found. */
  lemma {:induction false} CheckBefore(order: seq<Module>, me: Path)
    requires forall k :: 0 <= k < |order| ==> order[k].id != me
    ensures CheckAll(Search(false, false), order, me) == Search(false, false)
  {
    if order != [] {
      CheckBefore(order[1..], me);
    }
  }

  /** After it, any selected build_mcp module is. */
  lemma {:induction false} CheckAfter(order: seq<Module>, me: Path, exist: bool)
    requires forall k :: 0 <= k < |order| ==> order[k].id != me
    ensures CheckAll(Search(true, exist), order, me).existMcp == (exist || McpAmong(order))
  {
    if order != [] {
      var m, rest := order[0], order[1..];
      var exist' := exist || (m.func.BuildMcp? && m.selected);
      CheckAfter(rest, me, exist');
      if McpAmong(rest) {
        var k :| 0 <= k < |rest| && rest[k].func.BuildMcp? && rest[k].selected;
        assert order[k + 1] == rest[k];
      }
      if McpAmong(order) {
        var k :| 0 <= k < |order| && order[k].func.BuildMcp? && order[k].selected;
        assert k == 0 || order[k] == rest[k - 1];
      }
    }
  }

  /** The search over the whole tree decides whether the IDE is kept. */
  lemma SearchDecides(before: seq<Module>, m: Module, later: seq<Module>)
    requires Distinct(before + [m] + later)
    ensures CheckAll(Search(false, false), before + [m] + later, m.id).existMcp == KeepsIde(m, later)
  {
    var order := before + [m] + later;
    forall k | 0 <= k < |before|
      ensures before[k].id != m.id
    {
      assert order[k] == before[k] && order[|before|] == m;
    }
    forall k | 0 <= k < |later|
      ensures later[k].id != m.id
    {
      assert order[|before| + 1 + k] == later[k] && order[|before|] == m;
    }
    CheckBefore(before, m.id);
    CheckAppend(Search(false, false), before, [m], m.id);
    CheckAppend(Search(false, false), before + [m], later, m.id);
    assert CheckAll(Search(false, false), [m], m.id) == Check(Search(false, false), m, m.id);
    if m.func.BuildMcp? {
      CheckAfter(later, m.id, false);
    } else {
      CheckBefore(later, m.id);
    }
  }

  // --------------------------------------------------------------------------
  // The builder
  // --------------------------------------------------------------------------

  predicate Clear(throws: Action -> bool, trace: seq<Action>) {
    forall k :: 0 <= k < |trace| ==> !throws(trace[k])
  }

  /** The trace was cut short by its first action that throws, number n. */
  predicate StopsAt(throws: Action -> bool, start: seq<Action>, log: seq<Action>, trace: seq<Action>, n: nat) {
    && n < |trace| && log == start + trace[..n]
    && throws(trace[n]) && forall k :: 0 <= k < n ==> !throws(trace[k])
  }

  /** A completed step logged its whole trace, in which nothing throws; an interrupted one stopped at the first throw. */
  ghost predicate Progress(ok: bool, throws: Action -> bool, start: seq<Action>, log: seq<Action>, trace: seq<Action>) {
    if ok then log == start + trace && Clear(throws, trace)
    else exists n: nat :: StopsAt(throws, start, log, trace, n)
  }

  lemma ProgressNone(throws: Action -> bool, log: seq<Action>)
    ensures Progress(true, throws, log, log, [])
  {
    assert log + [] == log;
  }

  lemma ProgressThen(ok: bool, throws: Action -> bool, start: seq<Action>, a: seq<Action>, log: seq<Action>, b: seq<Action>)
    requires Clear(throws, a) && Progress(ok, throws, start + a, log, b)
    ensures Progress(ok, throws, start, log, a + b)
  {
    assert start + a + b == start + (a + b);
    if !ok {
      var n: nat :| StopsAt(throws, start + a, log, b, n);
      assert (a + b)[..|a| + n] == a + b[..n];
      assert start + a + b[..n] == start + (a + b[..n]);
      assert StopsAt(throws, start, log, a + b, |a| + n);
    }
  }

  lemma ProgressStops(throws: Action -> bool, start: seq<Action>, log: seq<Action>, a: seq<Action>, b: seq<Action>)
    requires Progress(false, throws, start, log, a)
    ensures Progress(false, throws, start, log, a + b)
  {
    var n: nat :| StopsAt(throws, start, log, a, n);
    assert (a + b)[..n] == a[..n];
    assert StopsAt(throws, start, log, a + b, n);
  }

  class Builder {
    var root: Module              // with the user's selection
    var throws: Action -> bool    // which foreign calls raise an error in this run
    var ideIsCreated: bool
    var func: Func
    ghost var log: seq<Action>    // completed calls
    ghost var ide: Ide            // the IDE itself

    /** The flag tells the state of an IDE that was driven by the logged calls and never misused. */
    ghost predicate Valid()
      reads this
    {
      ide == IdeOf(ideIsCreated) && ide == Drive(Closed, log)
    }

    /** The stretch of the tree's preorder that is being built. */
    ghost predicate Placed(before: seq<Module>, part: seq<Module>, later: seq<Module>)
      reads this
    {
      Preorder(root) == before + part + later && Distinct(Preorder(root))
    }

    constructor (root: Module, throws: Action -> bool)
      ensures this.root == root && this.throws == throws
      ensures Valid() && !ideIsCreated && log == []
    {
      this.root, this.throws := root, throws;
      ideIsCreated, func := false, BuildNode;
      log, ide := [], Closed;
    }

    /** Between runs the selection may change, and so may what throws. */
    method Prepare(root: Module, throws: Action -> bool)
      modifies this`root, this`throws
      ensures this.root == root && this.throws == throws
    {
      this.root, this.throws := root, throws;
    }

    /** A foreign call: it either throws or completes. */
    method Perform(a: Action) returns (ok: bool)
      requires ide == Drive(Closed, log)
      modifies this`log, this`ide
      ensures ide == Drive(Closed, log)
      ensures ok == !throws(a)
      ensures log == if ok then old(log) + [a] else old(log)
      ensures Progress(ok, throws, old(log), log, [a])
      ensures ide == if ok then DriveOne(old(ide), a) else old(ide)
    {
      ok := !throws(a);
      if ok {
        DriveAppend(Closed, log, [a]);
        log, ide := log + [a], DriveOne(ide, a);
      } else {
        assert log == log + [a][..0];
        assert StopsAt(throws, log, log, [a], 0);
      }
    }

    /** __dump_module applied to check_mcp_module */
    method Dump(m: Module, me: Path, args0: Search) returns (args: Search)
      ensures args == CheckAll(args0, Preorder(m), me)
      decreases m, 1
    {
      args := Check(args0, m, me);
      var i := 0;
      ghost var done := [m];
      assert CheckAll(args, [m][1..], me) == args;
      while i < |m.submods|
        invariant i <= |m.submods|
        invariant Preorder(m) == done + PreorderAll(m.submods, i)
        invariant args == CheckAll(args0, done, me)
      {
        args := Dump(m.submods[i], me, args);
        CheckAppend(args0, done, Preorder(m.submods[i]), me);
        done := done + Preorder(m.submods[i]);
        i := i + 1;
      }
      assert done + [] == done;
    }

    /** The start of build_mcp and build_mcp_no_check. */
    method OpenIde(m: Module) returns (ok: bool)
      requires Valid()
      modifies this`ideIsCreated, this`log, this`ide
      ensures Valid()
      ensures ok ==> ideIsCreated
      ensures Progress(ok, throws, old(log), log, OpenActions(old(ideIsCreated), m))
    {
      ok := true;
      if ideIsCreated {
        ProgressNone(throws, log);
      } else {
        ok := Perform(CreateIde(m.id));
        if ok {
          ideIsCreated := true;
        }
      }
    }

    /** __build_mcp_check_close */
    method CheckClose(m: Module, ghost before: seq<Module>, ghost later: seq<Module>) returns (ok: bool)
      requires Valid() && ideIsCreated && Placed(before, [m], later)
      modifies this`ideIsCreated, this`log, this`ide
      ensures Valid()
      ensures ok ==> ideIsCreated == KeepsIde(m, later)
      ensures Progress(ok, throws, old(log), log, CloseActions(m, later))
    {
      ok := true;
      var args := Dump(root, m.id, Search(false, false));
      SearchDecides(before, m, later);
      if !args.existMcp && ideIsCreated {
        ok := Perform(DeleteIde(m.id));
        if ok {
          ideIsCreated := false;
        }
      } else {
        ProgressNone(throws, log);
      }
    }

    /** build_mcp, build_mcp_no_check and the part of build_mcp_bug_warning after the question. */
    method BuildMcpProject(m: Module, ghost before: seq<Module>, ghost later: seq<Module>) returns (ok: bool)
      requires Valid() && m.selected && UsesIde(m.func)
      requires Placed(before, [m], later)
      modifies this`ideIsCreated, this`log, this`ide
      ensures Valid()
      ensures ok ==> ideIsCreated == KeepsIde(m, later)
      ensures ok ==> log == old(log) + ((if old(ideIsCreated) then [] else [CreateIde(m.id)]) + [BuildProject(m.id)]
                                        + if ideIsCreated then [] else [DeleteIde(m.id)])
      ensures Progress(ok, throws, old(log), log, ProjectActions(old(ideIsCreated), m, later))
    {
      ghost var open, build, close := OpenActions(ideIsCreated, m), [BuildProject(m.id)], CloseActions(m, later);
      ok := OpenIde(m);
      if !ok {
        ProgressStops(throws, old(log), log, open, build);
        ProgressStops(throws, old(log), log, open + build, close);
        return;
      }
      ok := Perform(BuildProject(m.id));
      ProgressThen(ok, throws, old(log), open, log, build);
      if !ok {
        ProgressStops(throws, old(log), log, open + build, close);
        return;
      }
      ok := CheckClose(m, before, later);
      ProgressThen(ok, throws, old(log), open + build, log, close);
    }

    /** A module stands before its submodules in the preorder. */
    lemma PlacedBelow(before: seq<Module>, m: Module, later: seq<Module>)
      requires Placed(before, Preorder(m), later)
      ensures Placed(before, [m], PreorderAll(m.submods, 0) + later)
      ensures Placed(before + [m], PreorderAll(m.submods, 0), later)
    {
      var below := PreorderAll(m.submods, 0);
      Regroup(before, [m], below);
      Regroup(before + [m], below, later);
    }

    /** The question of build_mcp_bug_warning */
    method Ask(m: Module) returns (ok: bool)
      requires Valid()
      modifies this`log, this`ide
      ensures Valid()
      ensures Progress(ok, throws, old(log), log, Question(m))
    {
      ok := true;
      if m.func.BuildMcpBugWarning? {
        ok := Perform(Confirm(m.id));
      } else {
        ProgressNone(throws, log);
      }
    }

    /** The functions that drive the IDE; build_mcp_bug_warning asks first. */
    method BuildWithIde(m: Module, ghost before: seq<Module>, ghost later: seq<Module>) returns (ok: bool)
      requires Valid() && m.selected && UsesIde(m.func) && Placed(before, [m], later)
      modifies this`ideIsCreated, this`log, this`ide
      ensures Valid()
      ensures ok ==> ideIsCreated == KeepsIde(m, later)
      ensures Progress(ok, throws, old(log), log, Question(m) + ProjectActions(old(ideIsCreated), m, later))
    {
      ghost var question, actions := Question(m), ProjectActions(ideIsCreated, m, later);
      ok := Ask(m);
      if !ok {
        ProgressStops(throws, old(log), log, question, actions);
        return;
      }
      ok := BuildMcpProject(m, before, later);
      ProgressThen(ok, throws, old(log), question, log, actions);
    }

    /** The functions that do not build the submodules themselves. */
    method InvokeLeaf(m: Module, ghost before: seq<Module>, ghost later: seq<Module>) returns (ok: bool)
      requires Valid() && m.selected && Placed(before, [m], later)
      modifies this`ideIsCreated, this`log, this`ide
      ensures Valid()
      ensures ok ==> ideIsCreated == IdeAfter(old(ideIsCreated), m, later)
      ensures Progress(ok, throws, old(log), log, ActionsOf(old(ideIsCreated), m, later))
    {
      ghost var work := Question(m) + ProjectActions(ideIsCreated, m, later);
      ok := Perform(Call(m.id));
      if UsesIde(m.func) {
        if !ok {
          ProgressStops(throws, old(log), log, [Call(m.id)], work);
          return;
        }
        ok := BuildWithIde(m, before, later);
        ProgressThen(ok, throws, old(log), [Call(m.id)], log, work);
      }
    }

    /** __build_module */
    method BuildModule(m: Module, ghost before: seq<Module>, ghost later: seq<Module>) returns (ok: bool)
      requires Valid() && Placed(before, Preorder(m), later)
      modifies this`func, this`ideIsCreated, this`log, this`ide
      ensures Valid()
      ensures ok ==> ideIsCreated == IdeAtEnd(old(ideIsCreated), Preorder(m), later)
      ensures Progress(ok, throws, old(log), log, Trace(old(ideIsCreated), Preorder(m), later))
      decreases m, 1
    {
      if m.selected && m.func.BuildServer? {
        var rt;
        ok, rt := BuildServerModule(m, before, later);
        return;  // rt is true: the submodules are built
      }
      ghost var below := PreorderAll(m.submods, 0);
      ghost var own := ActionsOf(ideIsCreated, m, below + later);
      ghost var rest := Trace(IdeAfter(ideIsCreated, m, below + later), below, later);
      FirstOfPreorder(ideIsCreated, m, later);
      PlacedBelow(before, m, later);
      ok := InvokeIfSelected(m, before, below + later);
      if !ok {
        ProgressStops(throws, old(log), log, own, rest);
        return;
      }
      ok := BuildSubmods(m.submods, before + [m], later);
      ProgressThen(ok, throws, old(log), own, log, rest);
    }

    method InvokeIfSelected(m: Module, ghost before: seq<Module>, ghost later: seq<Module>) returns (ok: bool)
      requires Valid() && Placed(before, [m], later)
      modifies this`func, this`ideIsCreated, this`log, this`ide
      ensures Valid()
      ensures ok ==> ideIsCreated == IdeAfter(old(ideIsCreated), m, later)
      ensures Progress(ok, throws, old(log), log, ActionsOf(old(ideIsCreated), m, later))
    {
      ok := true;
      if m.selected {
        func := m.func;
        ok := InvokeLeaf(m, before, later);
      } else {
        ProgressNone(throws, log);
      }
    }

    /** build_server: it recurses by itself and answers true, so its caller does not. */
    method BuildServerModule(m: Module, ghost before: seq<Module>, ghost later: seq<Module>) returns (ok: bool, rt: bool)
      requires Valid() && m.selected && m.func.BuildServer? && Placed(before, Preorder(m), later)
      modifies this`func, this`ideIsCreated, this`log, this`ide
      ensures Valid() && rt
      ensures ok ==> ideIsCreated == IdeAtEnd(old(ideIsCreated), Preorder(m), later)
      ensures Progress(ok, throws, old(log), log, Trace(old(ideIsCreated), Preorder(m), later))
      decreases m, 0
    {
      ghost var below := PreorderAll(m.submods, 0);
      ghost var rest := Trace(ideIsCreated, below, later);
      FirstOfPreorder(ideIsCreated, m, later);
      PlacedBelow(before, m, later);
      rt := true;
      func := m.func;
      ok := Perform(Call(m.id));
      if !ok {
        ProgressStops(throws, old(log), log, [Call(m.id)], rest);
        return;
      }
      ok := BuildSubmods(m.submods, before + [m], later);
      ProgressThen(ok, throws, old(log), [Call(m.id)], log, rest);
    }

    /** The submodules before number i are built, and nothing has thrown since the log was `start`. */
    ghost predicate BuiltTo(ms: seq<Module>, i: nat, open: bool, start: seq<Action>, done: seq<Module>, later: seq<Module>)
      requires i <= |ms|
      reads this
    {
      && PreorderAll(ms, 0) == done + PreorderAll(ms, i)
      && ideIsCreated == IdeAtEnd(open, done, PreorderAll(ms, i) + later)
      && Progress(true, throws, start, log, Trace(open, done, PreorderAll(ms, i) + later))
    }

    lemma NoneBuilt(ms: seq<Module>, later: seq<Module>)
      ensures BuiltTo(ms, 0, ideIsCreated, log, [], later)
    {
      ProgressNone(throws, log);
    }

    lemma AllBuilt(ms: seq<Module>, open: bool, start: seq<Action>, done: seq<Module>, later: seq<Module>)
      requires BuiltTo(ms, |ms|, open, start, done, later)
      ensures ideIsCreated == IdeAtEnd(open, PreorderAll(ms, 0), later)
      ensures Progress(true, throws, start, log, Trace(open, PreorderAll(ms, 0), later))
    {
      assert PreorderAll(ms, 0) == done && [] + later == later;
    }

    /** __build_submods */
    method BuildSubmods(ms: seq<Module>, ghost before: seq<Module>, ghost later: seq<Module>) returns (ok: bool)
      requires Valid() && Placed(before, PreorderAll(ms, 0), later)
      modifies this`func, this`ideIsCreated, this`log, this`ide
      ensures Valid()
      ensures ok ==> ideIsCreated == IdeAtEnd(old(ideIsCreated), PreorderAll(ms, 0), later)
      ensures Progress(ok, throws, old(log), log, Trace(old(ideIsCreated), PreorderAll(ms, 0), later))
      decreases ms, 1
    {
      ghost var done: seq<Module> := [];
      var i := 0;
      NoneBuilt(ms, later);
      while i < |ms|
        invariant i <= |ms| && Valid()
        invariant BuiltTo(ms, i, old(ideIsCreated), old(log), done, later)
      {
        ok := BuildNextSubmod(ms, i, old(ideIsCreated), old(log), done, before, later);
        if !ok {
          return;
        }
        done := done + Preorder(ms[i]);
        i := i + 1;
      }
      ok := true;
      AllBuilt(ms, old(ideIsCreated), old(log), done, later);
    }

    method BuildNextSubmod(ms: seq<Module>, i: nat, ghost open: bool, ghost start: seq<Action>, ghost done: seq<Module>,
                           ghost before: seq<Module>, ghost later: seq<Module>)
      returns (ok: bool)
      requires Valid() && Placed(before, PreorderAll(ms, 0), later)
      requires i < |ms| && BuiltTo(ms, i, open, start, done, later)
      modifies this`func, this`ideIsCreated, this`log, this`ide
      ensures Valid()
      ensures ok ==> BuiltTo(ms, i + 1, open, start, done + Preorder(ms[i]), later)
      ensures !ok ==> Progress(false, throws, start, log, Trace(open, PreorderAll(ms, 0), later))
      decreases ms, 0
    {
      ghost var p, tail := Preorder(ms[i]), PreorderAll(ms, i + 1);
      NextSubmod(open, done, p, tail, later);
      PlacedNext(before, done, p, tail, later);
      ghost var sofar, step := Trace(open, done, p + (tail + later)), Trace(ideIsCreated, p, tail + later);
      ok := BuildModule(ms[i], before + done, tail + later);
      ProgressThen(ok, throws, start, sofar, log, step);
      if !ok {
        ProgressStops(throws, start, log, sofar + step, Trace(IdeAtEnd(open, done + p, tail + later), tail, later));
      }
    }

    lemma PlacedNext(before: seq<Module>, done: seq<Module>, p: seq<Module>, tail: seq<Module>, later: seq<Module>)
      requires Placed(before, done + (p + tail), later)
      ensures Placed(before + done, p, tail + later)
    {
      Regroup(before, done, p + tail);
      Regroup(before + done, p, tail);
      Regroup(before + done + p, tail, later);
    }

    /**
     A whole run. It completes exactly when no foreign call of its trace throws, and otherwise
     stops at the first that does. Complete or not, selected modules are called at most once and
     in preorder, and the IDE is created only when closed, used and deleted only when open. A
     completed run calls all of them and leaves the IDE closed unless it was open and not used.
     */
    method Build() returns (ok: bool)
      requires Valid() && Numbered(root, [0])
      modifies this`func, this`ideIsCreated, this`log, this`ide
      ensures Valid()
      ensures ok <==> Clear(throws, Trace(old(ideIsCreated), Preorder(root), []))
      ensures Progress(ok, throws, old(log), log, Trace(old(ideIsCreated), Preorder(root), []))
      ensures old(log) <= log && ide == Drive(old(ide), log[|old(log)|..])
      ensures Served(ok, IdsOf(Calling, log[|old(log)|..]), SelectedIds(Preorder(root)))
      ensures Served(ok, IdsOf(Asking, log[|old(log)|..]), Running({BuildMcpBugWarning}, Preorder(root)))
      ensures Served(ok, IdsOf(Building, log[|old(log)|..]),
                     Running({BuildMcp, BuildMcpBugWarning, BuildMcpNoCheck}, Preorder(root)))
      ensures ok ==> ideIsCreated == (old(ideIsCreated) && !IdeUserAmong(Preorder(root)))
    {
      ghost var trace := Trace(ideIsCreated, Preorder(root), []);
      IdsExtend(root, [0]);
      assert [] + Preorder(root) + [] == Preorder(root);
      TraceSafe(ideIsCreated, Preorder(root), []);
      ProjectsBuilt(ideIsCreated, Preorder(root), []);
      ClosedAtEnd(ideIsCreated, Preorder(root));
      ok := BuildModule(root, [], []);
      ProgressPrefix(ok, throws, old(log), log, trace);
      PrefixIds(Calling, log[|old(log)|..], trace);
      PrefixIds(Asking, log[|old(log)|..], trace);
      PrefixIds(Building, log[|old(log)|..], trace);
      DriveAppend(Closed, old(log), log[|old(log)|..]);
      assert old(log) + log[|old(log)|..] == log;
    }
  }

  /** All of them in order, or the first of them when the run is interrupted. */
  predicate Served(ok: bool, ids: seq<Path>, due: seq<Path>) {
    ids <= due && (ok ==> ids == due)
  }

  /** However far a trace got, the log holds it up to there. */
  lemma ProgressPrefix(ok: bool, throws: Action -> bool, start: seq<Action>, log: seq<Action>, trace: seq<Action>)
    requires Progress(ok, throws, start, log, trace)
    ensures start <= log && log[|start|..] <= trace
    ensures ok ==> log[|start|..] == trace
    ensures ok <==> Clear(throws, trace)
  {
    if ok {
      assert log[|start|..] == trace;
    } else {
      var n: nat :| StopsAt(throws, start, log, trace, n);
      assert log[|start|..] == trace[..n];
    }
  }

  lemma PrefixIds(kind: Kind, log: seq<Action>, trace: seq<Action>)
    requires log <= trace
    ensures IdsOf(kind, log) <= IdsOf(kind, trace)
  {
    assert trace == log + trace[|log|..];
    IdsAppend(kind, log, trace[|log|..]);
  }

  /**
   The IDE outlives two runs: the first is interrupted while building and leaves it open, the
   second, with that module deselected, completes without closing it.
   */
  method LeftOpen() returns (b: Builder, first: bool, second: bool)
    ensures !first && second
    ensures b.log == [Call([0]), CreateIde([0])]
    ensures b.ideIsCreated && b.ide == Open
  {
    b, first := Interrupted();
    b.Prepare(Module(BuildMcp, [0], false, []), (a: Action) => false);
    ghost var order := Preorder(b.root);
    assert order == [b.root] && Trace(true, order, []) == [];
    second := b.Build();
  }

  /** A run whose only module throws while the IDE builds its project. */
  method Interrupted() returns (b: Builder, ok: bool)
    ensures fresh(b) && b.Valid() && !ok && b.ideIsCreated
    ensures b.log == [Call([0]), CreateIde([0])]
  {
    b := new Builder(Module(BuildMcp, [0], true, []), (a: Action) => a.BuildProject?);
    OneProject(b.root);
    ok := b.Build();
    StopsWhileBuilding(ok, b.throws, b.log, b.root);
  }

  function ProjectTrace(id: Path): seq<Action> {
    [Call(id), CreateIde(id), BuildProject(id), DeleteIde(id)]
  }

  lemma OneProject(m: Module)
    requires m.func.BuildMcp? && m.selected && m.submods == []
    ensures Trace(false, Preorder(m), []) == ProjectTrace(m.id)
  {
    assert Preorder(m) == [m] && [m][1..] + [] == [];
    assert Trace(IdeAfter(false, m, []), [], []) == [];
    assert ActionsOf(false, m, []) == ProjectTrace(m.id);
  }

  lemma StopsWhileBuilding(ok: bool, throws: Action -> bool, log: seq<Action>, m: Module)
    requires Progress(ok, throws, [], log, ProjectTrace(m.id))
    requires forall a :: throws(a) <==> a.BuildProject?
    ensures !ok && log == [Call(m.id), CreateIde(m.id)] && Drive(Closed, log) == Open
  {
    var trace := ProjectTrace(m.id);
    assert throws(trace[2]) && !throws(trace[0]) && !throws(trace[1]);
    var n: nat :| StopsAt(throws, [], log, trace, n);
    assert n == 2;
    assert log == [Call(m.id)] + [CreateIde(m.id)];
    DriveAppend(Closed, [Call(m.id)], [CreateIde(m.id)]);
  }

  lemma NextSubmod(open: bool, done: seq<Module>, p: seq<Module>, tail: seq<Module>, later: seq<Module>)
    ensures p + tail + later == p + (tail + later)
    ensures done + p + tail == done + (p + tail)
    ensures var state := IdeAtEnd(open, done, p + (tail + later));
      && IdeAtEnd(open, done + p, tail + later) == IdeAtEnd(state, p, tail + later)
      && Trace(open, done + p, tail + later) == Trace(open, done, p + (tail + later)) + Trace(state, p, tail + later)
    ensures Trace(open, done + (p + tail), later)
         == Trace(open, done + p, tail + later) + Trace(IdeAtEnd(open, done + p, tail + later), tail, later)
  {
    Regroup(done, p, tail);
    Regroup(p, tail, later);
    TraceAppend(open, done, p, tail + later);
    TraceAppend(open, done + p, tail, later);
  }

  /** A module's own actions come before those of its submodules. */
  lemma FirstOfPreorder(open: bool, m: Module, later: seq<Module>)
    ensures var below := PreorderAll(m.submods, 0) + later;
      && Trace(open, Preorder(m), later)
         == ActionsOf(open, m, below) + Trace(IdeAfter(open, m, below), PreorderAll(m.submods, 0), later)
      && IdeAtEnd(open, Preorder(m), later)
         == IdeAtEnd(IdeAfter(open, m, below), PreorderAll(m.submods, 0), later)
  {
    assert Preorder(m)[1..] == PreorderAll(m.submods, 0);
  }
}
