/** The cache of builtins lookups of modules, kept coherent by validity cells. */
module ModuleCache {
  import opened Options

  /** Modules and cells are named by number; a cell is allocated valid and can only be invalidated. */
  type Module = nat
  type Cell = nat

  /** The value of __builtins__: absent, a module, or something else. */
  datatype Binding = NotPresent | ToModule(m: Module) | Other

  datatype ModuleState =
    ModuleState(builtins: Binding, globalsCell: Option<Cell>, builtinsCell: Option<Cell>, dependents: seq<Cell>)

  datatype Lookup = Cached(builtins: Module, cell: Cell) | Uncacheable

  /** A cell handed out for module m and builtins b, when b's namespace had the given version. */
  datatype Grant = Grant(m: Module, b: Module, cell: Cell, version: nat)

  const MAX_REUSE_SCAN: nat := 8

  /** The builtins a module really uses. */
  function Effective(s: ModuleState, global: Module): Binding {
    if s.builtins == NotPresent then ToModule(global) else s.builtins
  }

  type Heap = map<Module, ModuleState>

  predicate Known(valid: seq<bool>, c: Option<Cell>) {
    c.Some? ==> c.value < |valid|
  }

  /** Module m's state is sound: its cell, while valid, depends on its effective builtins. */
  ghost predicate ModuleOk(global: Module, ms: Heap, valid: seq<bool>, m: Module) {
    m in ms && global in ms &&
    var s := ms[m];
    && Known(valid, s.globalsCell) && Known(valid, s.builtinsCell)
    && (forall i :: 0 <= i < |s.dependents| ==> s.dependents[i] < |valid|)
    && (s.builtins.ToModule? ==> s.builtins.m in ms)
    && (s.builtinsCell.Some? && valid[s.builtinsCell.value] ==>
          Effective(s, global).ToModule? && s.builtinsCell.value in ms[Effective(s, global).m].dependents)
  }

  /** Module x holds cell c only as the dependents list of b or the builtins cell of m do. */
  ghost predicate HeldOnlyFor(s: ModuleState, x: Module, m: Module, b: Binding, c: Cell) {
    && (c in s.dependents ==> b == ToModule(x))
    && s.globalsCell != Some(c)
    && (s.builtinsCell == Some(c) ==> x == m)
  }

  /** While valid, the builtins cell of m is held nowhere but by m and by its effective builtins. */
  ghost predicate CellOk(global: Module, ms: Heap, valid: seq<bool>, m: Module) {
    m in ms && Known(valid, ms[m].builtinsCell) &&
    (ms[m].builtinsCell.Some? && valid[ms[m].builtinsCell.value] ==>
       forall x :: x in ms ==> HeldOnlyFor(ms[x], x, m, Effective(ms[m], global), ms[m].builtinsCell.value))
  }

  /** The promise: a cell that is still valid means that the module still uses these builtins and
      that their namespace has not changed since. */
  ghost predicate Coherent(global: Module, ms: Heap, valid: seq<bool>, version: map<Module, nat>, g: Grant) {
    && g.m in ms && g.b in ms && g.b in version && g.cell < |valid|
    && (valid[g.cell] ==> Effective(ms[g.m], global) == ToModule(g.b) && version[g.b] == g.version)
  }

  /** A granted cell that is still valid is its module's current cell. */
  ghost predicate GrantOk(global: Module, ms: Heap, valid: seq<bool>, version: map<Module, nat>, g: Grant) {
    Coherent(global, ms, valid, version, g) && (valid[g.cell] ==> ms[g.m].builtinsCell == Some(g.cell))
  }

  /** valid' has the same cells, none of them revived. */
  ghost predicate Revokes(valid: seq<bool>, valid': seq<bool>) {
    |valid'| == |valid| && forall c :: 0 <= c < |valid| && valid'[c] ==> valid[c]
  }

  /** After b's cells are revoked and its lists emptied, every module is still sound. */
  lemma InvalidatedModule(global: Module, ms: Heap, valid: seq<bool>, valid': seq<bool>, b: Module, x: Module)
    requires ModuleOk(global, ms, valid, x) && b in ms && Revokes(valid, valid')
    requires forall c :: 0 <= c < |valid| && c in ms[b].dependents ==> !valid'[c]
    ensures ModuleOk(global, ms[b := ModuleState(ms[b].builtins, None, None, [])], valid', x)
  {}

  lemma InvalidatedGrant(global: Module, ms: Heap, valid: seq<bool>, valid': seq<bool>, version: map<Module, nat>,
      b: Module, g: Grant)
    requires GrantOk(global, ms, valid, version, g) && ModuleOk(global, ms, valid, g.m)
    requires b in ms && b in version && Revokes(valid, valid')
    requires forall c :: 0 <= c < |valid| && c in ms[b].dependents ==> !valid'[c]
    requires ms[b].builtinsCell.Some? && ms[b].builtinsCell.value < |valid| ==> !valid'[ms[b].builtinsCell.value]
    ensures GrantOk(global, ms[b := ModuleState(ms[b].builtins, None, None, [])],
                    valid', version[b := version[b] + 1], g)
    ensures g.b == b || g.m == b ==> !valid'[g.cell]
  {}

  /** Giving m a fresh cell and entering it in b's dependents keeps every module sound. */
  lemma AttachedModule(global: Module, ms: Heap, valid: seq<bool>, m: Module, b: Module, deps: seq<Cell>, x: Module)
    requires ModuleOk(global, ms, valid, x) && m in ms && b in ms && Effective(ms[m], global) == ToModule(b)
    requires |valid| in deps
    requires forall c :: c in ms[b].dependents && c < |valid| && valid[c] ==> c in deps
    requires forall i :: 0 <= i < |deps| ==> deps[i] <= |valid|
    ensures var ms1 := ms[m := ms[m].(builtinsCell := Some(|valid|))];
      ModuleOk(global, ms1[b := ms1[b].(dependents := deps)], valid + [true], x)
  {}

  lemma AttachedGrant(global: Module, ms: Heap, valid: seq<bool>, version: map<Module, nat>, m: Module, b: Module,
      deps: seq<Cell>, g: Grant)
    requires GrantOk(global, ms, valid, version, g) && m in ms && b in ms
    requires ms[m].builtinsCell.Some? && ms[m].builtinsCell.value < |valid| ==> !valid[ms[m].builtinsCell.value]
    ensures var ms1 := ms[m := ms[m].(builtinsCell := Some(|valid|))];
      GrantOk(global, ms1[b := ms1[b].(dependents := deps)], valid + [true], version, g)
  {}

  /** The fresh cell is held only by m and b, and no other cell changes hands. */
  lemma AttachedCell(global: Module, ms: Heap, valid: seq<bool>, m: Module, b: Module, deps: seq<Cell>, y: Module)
    requires forall x :: x in ms ==> ModuleOk(global, ms, valid, x)
    requires CellOk(global, ms, valid, y) && m in ms && b in ms && Effective(ms[m], global) == ToModule(b)
    requires forall c :: c in deps ==> c in ms[b].dependents || c == |valid|
    ensures var ms1 := ms[m := ms[m].(builtinsCell := Some(|valid|))];
      CellOk(global, ms1[b := ms1[b].(dependents := deps)], valid + [true], y)
  {
    var ms1 := ms[m := ms[m].(builtinsCell := Some(|valid|))];
    var ms' := ms1[b := ms1[b].(dependents := deps)];
    var cell := ms'[y].builtinsCell;
    if cell.Some? && (valid + [true])[cell.value] {
      forall x | x in ms'
        ensures HeldOnlyFor(ms'[x], x, y, Effective(ms'[y], global), cell.value)
      {
        assert ModuleOk(global, ms, valid, x);
        assert y != m ==> HeldOnlyFor(ms[x], x, y, Effective(ms[y], global), cell.value);
      }
    }
  }

  ghost predicate Sound(global: Module, ms: Heap, valid: seq<bool>, version: map<Module, nat>, grants: set<Grant>) {
    && global in ms && ms.Keys == version.Keys
    && (forall m :: m in ms ==> ModuleOk(global, ms, valid, m))
    && (forall m :: m in ms ==> CellOk(global, ms, valid, m))
    && (forall g :: g in grants ==> GrantOk(global, ms, valid, version, g))
  }

  lemma InvalidatedIsSound(global: Module, ms: Heap, valid: seq<bool>, valid': seq<bool>, version: map<Module, nat>,
      grants: set<Grant>, b: Module)
    requires Sound(global, ms, valid, version, grants) && b in ms && b in version && Revokes(valid, valid')
    requires forall c :: 0 <= c < |valid| && c in ms[b].dependents ==> !valid'[c]
    requires ms[b].builtinsCell.Some? && ms[b].builtinsCell.value < |valid| ==> !valid'[ms[b].builtinsCell.value]
    ensures Sound(global, ms[b := ModuleState(ms[b].builtins, None, None, [])],
                  valid', version[b := version[b] + 1], grants)
    ensures forall g :: g in grants && (g.b == b || g.m == b) ==> g.cell < |valid'| && !valid'[g.cell]
  {
    var ms', version' := ms[b := ModuleState(ms[b].builtins, None, None, [])], version[b := version[b] + 1];
    forall x | x in ms'
      ensures ModuleOk(global, ms', valid', x)
    {
      InvalidatedModule(global, ms, valid, valid', b, x);
    }
    forall x | x in ms'
      ensures CellOk(global, ms', valid', x)
    {
      assert CellOk(global, ms, valid, x);
    }
    forall g | g in grants
      ensures GrantOk(global, ms', valid', version', g) && (g.b == b || g.m == b ==> !valid'[g.cell])
    {
      InvalidatedGrant(global, ms, valid, valid', version, b, g);
    }
  }

  lemma AttachedIsSound(global: Module, ms: Heap, valid: seq<bool>, version: map<Module, nat>, grants: set<Grant>,
      m: Module, b: Module, deps: seq<Cell>)
    requires Sound(global, ms, valid, version, grants)
    requires m in ms && b in ms && b in version && Effective(ms[m], global) == ToModule(b)
    requires ms[m].builtinsCell.Some? && ms[m].builtinsCell.value < |valid| ==> !valid[ms[m].builtinsCell.value]
    requires |valid| in deps && forall i :: 0 <= i < |deps| ==> deps[i] <= |valid|
    requires forall c :: c in ms[b].dependents && c < |valid| && valid[c] ==> c in deps
    requires forall c :: c in deps ==> c in ms[b].dependents || c == |valid|
    ensures var ms1 := ms[m := ms[m].(builtinsCell := Some(|valid|))];
      Sound(global, ms1[b := ms1[b].(dependents := deps)], valid + [true], version,
            grants + {Grant(m, b, |valid|, version[b])})
  {
    var ms1 := ms[m := ms[m].(builtinsCell := Some(|valid|))];
    var ms' := ms1[b := ms1[b].(dependents := deps)];
    forall x | x in ms'
      ensures ModuleOk(global, ms', valid + [true], x)
    {
      AttachedModule(global, ms, valid, m, b, deps, x);
    }
    forall x | x in ms'
      ensures CellOk(global, ms', valid + [true], x)
    {
      AttachedCell(global, ms, valid, m, b, deps, x);
    }
    forall g | g in grants
      ensures GrantOk(global, ms', valid + [true], version, g)
    {
      AttachedGrant(global, ms, valid, version, m, b, deps, g);
    }
  }

  lemma NewIsSound(global: Module, ms: Heap, valid: seq<bool>, version: map<Module, nat>, grants: set<Grant>,
      m: Module, builtins: Binding)
    requires Sound(global, ms, valid, version, grants) && m !in ms && (builtins.ToModule? ==> builtins.m in ms)
    ensures Sound(global, ms[m := ModuleState(builtins, None, None, [])], valid, version[m := 0], grants)
  {
    var ms' := ms[m := ModuleState(builtins, None, None, [])];
    forall x | x in ms'
      ensures ModuleOk(global, ms', valid, x)
    {
      assert x != m ==> ModuleOk(global, ms, valid, x);
    }
    forall x | x in ms'
      ensures CellOk(global, ms', valid, x)
    {
      assert x != m ==> CellOk(global, ms, valid, x);
    }
    forall g | g in grants
      ensures GrantOk(global, ms', valid, version[m := 0], g)
    {
      assert GrantOk(global, ms, valid, version, g);
    }
  }

  lemma ReboundIsSound(global: Module, ms: Heap, valid: seq<bool>, valid': seq<bool>, version: map<Module, nat>,
      grants: set<Grant>, m: Module, value: Binding)
    requires Sound(global, ms, valid, version, grants) && m in ms
    requires (value.ToModule? ==> value.m in ms) && Revokes(valid, valid')
    requires ms[m].builtinsCell.Some? && ms[m].builtinsCell.value < |valid| ==> !valid'[ms[m].builtinsCell.value]
    ensures Sound(global, ms[m := ms[m].(builtins := value, builtinsCell := None)], valid', version, grants)
    ensures forall g :: g in grants && g.m == m ==> g.cell < |valid'| && !valid'[g.cell]
  {
    var ms' := ms[m := ms[m].(builtins := value, builtinsCell := None)];
    forall x | x in ms'
      ensures ModuleOk(global, ms', valid', x)
    {
      assert ModuleOk(global, ms, valid, x);
    }
    forall x | x in ms'
      ensures CellOk(global, ms', valid', x)
    {
      assert CellOk(global, ms, valid, x);
    }
    forall g | g in grants
      ensures GrantOk(global, ms', valid', version, g) && (g.m == m ==> !valid'[g.cell])
    {
      assert GrantOk(global, ms, valid, version, g);
    }
  }

  lemma GlobalsIsSound(global: Module, ms: Heap, valid: seq<bool>, version: map<Module, nat>, grants: set<Grant>,
      m: Module)
    requires Sound(global, ms, valid, version, grants) && m in ms
    ensures Sound(global, ms[m := ms[m].(globalsCell := Some(|valid|))], valid + [true], version, grants)
  {
    var ms', valid' := ms[m := ms[m].(globalsCell := Some(|valid|))], valid + [true];
    forall x | x in ms'
      ensures ModuleOk(global, ms', valid', x)
    {
      assert ModuleOk(global, ms, valid, x);
    }
    forall x | x in ms'
      ensures CellOk(global, ms', valid', x)
    {
      assert CellOk(global, ms, valid, x) && ModuleOk(global, ms, valid, x);
    }
    forall g | g in grants
      ensures GrantOk(global, ms', valid', version, g)
    {
      assert GrantOk(global, ms, valid, version, g);
    }
  }

  /** Module state s names cell c. */
  predicate Holds(s: ModuleState, c: Cell) {
    c in s.dependents || s.globalsCell == Some(c) || s.builtinsCell == Some(c)
  }

  /** A valid granted cell is held by its module and its builtins, and by no other module. */
  lemma GrantedCellHeld(global: Module, ms: Heap, valid: seq<bool>, version: map<Module, nat>, grants: set<Grant>,
      g: Grant)
    requires Sound(global, ms, valid, version, grants) && g in grants
    ensures g.cell < |valid| && g.m in ms && g.b in ms
    ensures valid[g.cell] ==> ms[g.m].builtinsCell == Some(g.cell) && g.cell in ms[g.b].dependents
    ensures valid[g.cell] ==> forall x :: x in ms && Holds(ms[x], g.cell) ==> x == g.m || x == g.b
    ensures valid[g.cell] ==> forall x :: x in ms && ms[x].builtinsCell == Some(g.cell) ==> x == g.m
  {
    assert GrantOk(global, ms, valid, version, g);
    assert ModuleOk(global, ms, valid, g.m) && CellOk(global, ms, valid, g.m);
    if valid[g.cell] {
      forall x | x in ms
        ensures HeldOnlyFor(ms[x], x, g.m, ToModule(g.b), g.cell)
      {
        assert HeldOnlyFor(ms[x], x, g.m, Effective(ms[g.m], global), g.cell);
      }
    }
  }

  /** Rebinding m revokes exactly the lookups handed out for m. */
  lemma ReboundGrants(global: Module, ms: Heap, valid: seq<bool>, valid': seq<bool>, version: map<Module, nat>,
      grants: set<Grant>, m: Module)
    requires Sound(global, ms, valid, version, grants) && m in ms && |valid'| == |valid|
    requires forall c :: 0 <= c < |valid| ==> valid'[c] == (valid[c] && ms[m].builtinsCell != Some(c))
    ensures forall g :: g in grants ==> g.cell < |valid| && valid'[g.cell] == (valid[g.cell] && g.m != m)
  {
    forall g | g in grants
      ensures g.cell < |valid| && valid'[g.cell] == (valid[g.cell] && g.m != m)
    {
      GrantedCellHeld(global, ms, valid, version, grants, g);
    }
  }

  /** Invalidating b revokes exactly the lookups of b and into b. */
  lemma InvalidatedGrants(global: Module, ms: Heap, valid: seq<bool>, valid': seq<bool>, version: map<Module, nat>,
      grants: set<Grant>, b: Module)
    requires Sound(global, ms, valid, version, grants) && b in ms && |valid'| == |valid|
    requires forall c :: 0 <= c < |valid| ==> valid'[c] == (valid[c] && !Holds(ms[b], c))
    ensures forall g :: g in grants ==> g.cell < |valid| && valid'[g.cell] == (valid[g.cell] && g.m != b && g.b != b)
  {
    forall g | g in grants
      ensures g.cell < |valid| && valid'[g.cell] == (valid[g.cell] && g.m != b && g.b != b)
    {
      GrantedCellHeld(global, ms, valid, version, grants, g);
    }
  }

  class Modules {
    const global: Module
    var modules: map<Module, ModuleState>
    var valid: seq<bool>

    /** How often each module's namespace was changed, and every lookup ever handed out. */
    ghost var version: map<Module, nat>
    ghost var grants: set<Grant>

    ghost predicate Valid()
      reads this
    {
      Sound(global, modules, valid, version, grants)
    }

    constructor (global: Module)
      ensures this.global == global && Valid() && grants == {} && modules.Keys == {global}
    {
      this.global := global;
      modules := map[global := ModuleState(NotPresent, None, None, [])];
      valid := [];
      version := map[global := 0];
      grants := {};
    }

    method NewModule(m: Module, builtins: Binding)
      requires Valid() && m !in modules && (builtins.ToModule? ==> builtins.m in modules)
      modifies this`modules, this`version
      ensures Valid() && modules == old(modules)[m := ModuleState(builtins, None, None, [])]
      ensures version == old(version)[m := 0]
    {
      NewIsSound(global, modules, valid, version, grants, m, builtins);
      modules := modules[m := ModuleState(builtins, None, None, [])];
      version := version[m := 0];
    }

    /** Invalidates the module's own builtins cell, and nothing else. */
    method InvalidateBuiltinsCell(m: Module)
      requires m in modules && Known(valid, modules[m].builtinsCell)
      modifies this`modules, this`valid
      ensures modules == old(modules)[m := old(modules[m]).(builtinsCell := None)]
      ensures |valid| == old(|valid|)
      ensures forall c :: 0 <= c < |valid| ==> valid[c] == (old(valid[c]) && old(modules[m].builtinsCell) != Some(c))
    {
      var cell := modules[m].builtinsCell;
      if cell.Some? {
        valid := valid[cell.value := false];
      }
      modules := modules[m := modules[m].(builtinsCell := None)];
    }

    /** Rebinding __builtins__, to NotPresent when it is deleted. Every lookup handed out for the
        module is revoked; no other cell is touched. */
    method SetBuiltinsBinding(m: Module, value: Binding)
      requires Valid() && m in modules && (value.ToModule? ==> value.m in modules)
      modifies this`modules, this`valid
      ensures Valid() && modules[m].builtins == value && modules.Keys == old(modules.Keys)
      ensures forall x :: x in modules && x != m ==> modules[x] == old(modules[x])
      ensures |valid| == old(|valid|)
      ensures forall c :: 0 <= c < |valid| ==> valid[c] == (old(valid[c]) && old(modules[m].builtinsCell) != Some(c))
      ensures forall g :: g in grants ==> g.cell < |valid| && valid[g.cell] == (old(valid)[g.cell] && g.m != m)
    {
      ghost var ms, before := modules, valid;
      assert Known(valid, modules[m].builtinsCell) by { assert ModuleOk(global, modules, valid, m); }
      modules := modules[m := modules[m].(builtins := value)];
      InvalidateBuiltinsCell(m);
      assert modules == ms[m := ms[m].(builtins := value, builtinsCell := None)];
      ReboundIsSound(global, ms, before, valid, version, grants, m, value);
      ReboundGrants(global, ms, before, valid, version, grants, m);
    }

    /** Adds a valid cell to a module's dependents. One of the first eight slots is reused if its cell
        is invalid; a cell that is still valid is never dropped. */
    method Attach(dependents: seq<Cell>, cell: Cell) returns (r: seq<Cell>)
      requires forall i :: 0 <= i < |dependents| ==> dependents[i] < |valid|
      requires cell < |valid| && valid[cell]
      ensures cell in r && |dependents| <= |r| <= |dependents| + 1
      ensures forall c :: c in dependents && c < |valid| && valid[c] ==> c in r
      ensures forall c :: c in r ==> c in dependents || c == cell
      ensures forall i :: 0 <= i < |r| ==> r[i] < |valid|
      ensures |r| == |dependents| <==> exists i :: 0 <= i < |dependents| && i < MAX_REUSE_SCAN && !valid[dependents[i]]
    {
      var scan := if |dependents| < MAX_REUSE_SCAN then |dependents| else MAX_REUSE_SCAN;
      var i := 0;
      while i < scan
        invariant 0 <= i <= scan
        invariant forall k :: 0 <= k < i ==> valid[dependents[k]]
      {
        if !valid[dependents[i]] {
          r := dependents[i := cell];
          KeepsOthers(dependents, i, cell);
          return;
        }
        i := i + 1;
      }
      r := dependents + [cell];
    }

    /** A new valid cell. */
    method NewCell() returns (cell: Cell)
      modifies this`valid
      ensures cell == old(|valid|) && valid == old(valid) + [true]
    {
      cell := |valid|;
      valid := valid + [true];
    }

    /** The module's builtins and a cell that stays valid as long as the answer is good. */
    method GetBuiltinsLookup(m: Module) returns (r: Lookup)
      requires Valid() && m in modules
      modifies this`modules, this`valid, this`grants
      ensures Valid() && modules.Keys == old(modules.Keys)
      ensures forall x :: x in modules ==> modules[x].builtins == old(modules[x].builtins)
      ensures r.Uncacheable? <==> Effective(modules[m], global) == Other
      ensures r.Uncacheable? ==> grants == old(grants)
      ensures r.Cached? ==> Effective(modules[m], global) == ToModule(r.builtins) && r.builtins in modules
      ensures r.Cached? ==> r.cell < |valid| && valid[r.cell] && r.builtins in version
      ensures r.Cached? ==> grants == old(grants) + {Grant(m, r.builtins, r.cell, version[r.builtins])}
      ensures |valid| >= old(|valid|) && forall c :: 0 <= c < old(|valid|) ==> valid[c] == old(valid[c])
    {
      assert ModuleOk(global, modules, valid, m);
      var builtins := Effective(modules[m], global);
      if !builtins.ToModule? {
        return Uncacheable;
      }
      var b := builtins.m;
      var cell := modules[m].builtinsCell;
      if cell.Some? && valid[cell.value] {
        grants := grants + {Grant(m, b, cell.value, version[b])};
        return Cached(b, cell.value);
      }
      var created := CreateLookup(m, b);
      return Cached(b, created);
    }

    /** The slow path: a fresh cell for m, entered in the dependents of b. */
    method CreateLookup(m: Module, b: Module) returns (cell: Cell)
      requires Valid() && m in modules && b in modules && b in version && Effective(modules[m], global) == ToModule(b)
      requires modules[m].builtinsCell.Some? && modules[m].builtinsCell.value < |valid| ==>
        !valid[modules[m].builtinsCell.value]
      modifies this`modules, this`valid, this`grants
      ensures Valid() && modules.Keys == old(modules.Keys)
      ensures forall x :: x in modules ==> modules[x].builtins == old(modules[x].builtins)
      ensures cell == old(|valid|) && valid == old(valid) + [true]
      ensures grants == old(grants) + {Grant(m, b, cell, version[b])}
    {
      assert ModuleOk(global, modules, valid, b);
      ghost var dependents: seq<Cell>;
      cell, dependents := EnterCell(m, b);
      grants := grants + {Grant(m, b, cell, version[b])};
      AttachedIsSound(global, old(modules), old(valid), version, old(grants), m, b, dependents);
    }

    method EnterCell(m: Module, b: Module) returns (cell: Cell, ghost dependents: seq<Cell>)
      requires m in modules && b in modules
      requires forall i :: 0 <= i < |modules[b].dependents| ==> modules[b].dependents[i] < |valid|
      modifies this`modules, this`valid
      ensures cell == old(|valid|) && valid == old(valid) + [true]
      ensures var ms1 := old(modules)[m := old(modules)[m].(builtinsCell := Some(cell))];
        modules == ms1[b := ms1[b].(dependents := dependents)]
      ensures cell in dependents && forall i :: 0 <= i < |dependents| ==> dependents[i] <= cell
      ensures forall c :: c in old(modules)[b].dependents && c < old(|valid|) && old(valid)[c] ==> c in dependents
      ensures forall c :: c in dependents ==> c in old(modules)[b].dependents || c == cell
    {
      cell := NewCell();
      modules := modules[m := modules[m].(builtinsCell := Some(cell))];
      var attached := Attach(modules[b].dependents, cell);
      modules := modules[b := modules[b].(dependents := attached)];
      dependents := attached;
    }

    /** Invalidates every listed cell. */
    method InvalidateAll(cells: seq<Cell>)
      requires forall i :: 0 <= i < |cells| ==> cells[i] < |valid|
      modifies this`valid
      ensures |valid| == old(|valid|)
      ensures forall c :: 0 <= c < |valid| ==> valid[c] == (old(valid[c]) && c !in cells)
    {
      var i := 0;
      while i < |cells|
        invariant 0 <= i <= |cells| && |valid| == old(|valid|)
        invariant forall c :: 0 <= c < |valid| ==> valid[c] == (old(valid[c]) && c !in cells[..i])
      {
        valid := valid[cells[i] := false];
        assert cells[..i + 1] == cells[..i] + [cells[i]];
        i := i + 1;
      }
      assert cells[..i] == cells;
    }

    /** A change to b's namespace: every lookup that depends on it, and b's own, is revoked. */
    method InvalidateLookups(b: Module)
      requires Valid() && b in modules
      modifies this`modules, this`valid, this`version
      ensures Valid() && modules == old(modules)[b := ModuleState(old(modules[b]).builtins, None, None, [])]
      ensures b in version && old(b in version) && version == old(version)[b := old(version[b]) + 1]
      ensures |valid| == old(|valid|)
      ensures forall c :: 0 <= c < |valid| ==> valid[c] == (old(valid[c]) && !Holds(old(modules[b]), c))
      ensures forall g :: g in grants ==>
        g.cell < |valid| && valid[g.cell] == (old(valid)[g.cell] && g.m != b && g.b != b)
    {
      assert ModuleOk(global, modules, valid, b);
      RevokeCells(b);
      version := version[b := version[b] + 1];
      InvalidatedIsSound(global, old(modules), old(valid), valid, old(version), grants, b);
      InvalidatedGrants(global, old(modules), old(valid), valid, old(version), grants, b);
    }

    /** Invalidates and forgets all cells of b. */
    method RevokeCells(b: Module)
      requires b in modules && ModuleOk(global, modules, valid, b)
      modifies this`modules, this`valid
      ensures modules == old(modules)[b := ModuleState(old(modules[b]).builtins, None, None, [])]
      ensures |valid| == old(|valid|)
      ensures forall c :: 0 <= c < |valid| ==> valid[c] == (old(valid[c]) && !Holds(old(modules[b]), c))
    {
      InvalidateAll(modules[b].dependents);
      modules := modules[b := modules[b].(dependents := [])];
      if modules[b].globalsCell.Some? {
        valid := valid[modules[b].globalsCell.value := false];
        modules := modules[b := modules[b].(globalsCell := None)];
      }
      InvalidateBuiltinsCell(b);
    }

    /** The lazily created cell for the module's own globals. */
    method GlobalsCell(m: Module) returns (cell: Cell)
      requires Valid() && m in modules
      modifies this`modules, this`valid
      ensures Valid() && cell < |valid| && valid[cell]
      ensures modules == old(modules)[m := old(modules[m]).(globalsCell := Some(cell))]
      ensures |valid| >= old(|valid|) && forall c :: 0 <= c < old(|valid|) ==> valid[c] == old(valid[c])
    {
      assert ModuleOk(global, modules, valid, m);
      var current := modules[m].globalsCell;
      if current.Some? && valid[current.value] {
        return current.value;
      }
      GlobalsIsSound(global, modules, valid, version, grants, m);
      cell := NewCell();
      modules := modules[m := modules[m].(globalsCell := Some(cell))];
    }
  }

  lemma KeepsOthers(s: seq<Cell>, i: nat, x: Cell)
    requires i < |s|
    ensures x in s[i := x]
    ensures forall c :: c in s && c != s[i] ==> c in s[i := x]
  {
    var t := s[i := x];
    assert t[i] == x;
    forall c | c in s && c != s[i]
      ensures c in t
    {
      var k :| 0 <= k < |s| && s[k] == c;
      assert t[k] == c;
    }
  }

  datatype Op =
    | New(m: Module, builtins: Binding)
    | Rebind(m: Module, value: Binding)
    | Delete(m: Module)
    | Look(m: Module)
    | Invalidate(m: Module)
    | Globals(m: Module)

  /** What the operations are about: each module's binding, and how often its namespace changed. */
  datatype World = World(bindings: map<Module, Binding>, version: map<Module, nat>)

  ghost function WorldOf(ms: Heap, version: map<Module, nat>): World {
    World(map m | m in ms :: ms[m].builtins, version)
  }

  /** The operation names modules that exist. */
  predicate Applicable(known: set<Module>, op: Op) {
    match op
    case New(m, b) => m !in known && (b.ToModule? ==> b.m in known)
    case Rebind(m, v) => m in known && (v.ToModule? ==> v.m in known)
    case Delete(m) => m in known
    case Look(m) => m in known
    case Invalidate(m) => m in known
    case Globals(m) => m in known
  }

  /** What each operation means, without any cache. */
  ghost function Effect(w: World, op: Op): World {
    if !Applicable(w.bindings.Keys, op) then w else
      match op
      case New(m, b) => World(w.bindings[m := b], w.version[m := 0])
      case Rebind(m, v) => w.(bindings := w.bindings[m := v])
      case Delete(m) => w.(bindings := w.bindings[m := NotPresent])
      case Look(m) => w
      case Invalidate(m) => w.(version := w.version[m := (if m in w.version then w.version[m] else 0) + 1])
      case Globals(m) => w
  }

  /** Its consequences for the builtins in use: deleting falls back to the global ones, rebinding takes
      effect, and no other module, and no other namespace, is affected. */
  lemma EffectOnBuiltins(w: World, global: Module, op: Op, x: Module)
    requires Applicable(w.bindings.Keys, op) && x in w.bindings && w.bindings.Keys == w.version.Keys
    ensures x in Effect(w, op).bindings && x in Effect(w, op).version
    ensures EffectiveIn(Effect(w, op), global, x) ==
      if op == Delete(x) then ToModule(global)
      else if op.Rebind? && op.m == x && op.value != NotPresent then op.value
      else if op.Rebind? && op.m == x then ToModule(global)
      else EffectiveIn(w, global, x)
    ensures Effect(w, op).version[x] == w.version[x] + if op == Invalidate(x) then 1 else 0
  {}

  ghost function EffectAll(w: World, ops: seq<Op>): World {
    if ops == [] then w else Effect(EffectAll(w, ops[..|ops| - 1]), ops[|ops| - 1])
  }

  lemma SameBindings(ms: Heap, ms': Heap, version: map<Module, nat>)
    requires ms'.Keys == ms.Keys && forall x :: x in ms ==> ms'[x].builtins == ms[x].builtins
    ensures WorldOf(ms', version).bindings == WorldOf(ms, version).bindings
  {}

  lemma OneBinding(ms: Heap, ms': Heap, version: map<Module, nat>, m: Module, value: Binding)
    requires ms'.Keys == ms.Keys + {m} && ms'[m].builtins == value
    requires forall x :: x in ms && x != m ==> ms'[x].builtins == ms[x].builtins
    ensures WorldOf(ms', version).bindings == WorldOf(ms, version).bindings[m := value]
  {}

  lemma KnownModules(ms: Heap, version: map<Module, nat>)
    ensures WorldOf(ms, version).bindings.Keys == ms.Keys
  {}

  /** The builtins that module m uses in world w. */
  ghost function EffectiveIn(w: World, global: Module, m: Module): Binding
    requires m in w.bindings
  {
    if w.bindings[m] == NotPresent then ToModule(global) else w.bindings[m]
  }

  /** The operation ends lookups of m into b. */
  predicate Disturbs(op: Op, m: Module, b: Module) {
    match op
    case Rebind(x, _) => x == m
    case Delete(x) => x == m
    case Invalidate(x) => x == m || x == b
    case _ => false
  }

  /** The operation revokes exactly the lookups it disturbs. */
  ghost predicate CellsAfter(valid: seq<bool>, valid': seq<bool>, grants: set<Grant>, op: Op) {
    forall g :: g in grants ==>
      g.cell < |valid| && g.cell < |valid'| && valid'[g.cell] == (valid[g.cell] && !Disturbs(op, g.m, g.b))
  }

  ghost predicate Granted(grants: set<Grant>, m: Module, b: Module, cell: Cell) {
    exists g :: g in grants && g.m == m && g.b == b && g.cell == cell
  }

  datatype Reply = Looked(lookup: Lookup) | NoReply

  /** The reply to an operation in world w: a lookup names the builtins the module uses, with a valid
      cell that is on record; it cannot be cached exactly when those builtins are no module. */
  ghost predicate RightReply(global: Module, w: World, op: Op, r: Reply, valid: seq<bool>, grants: set<Grant>) {
    if op.Look? && op.m in w.bindings then
      && r.Looked?
      && if EffectiveIn(w, global, op.m) == Other then r.lookup == Uncacheable else
           && r.lookup.Cached? && EffectiveIn(w, global, op.m) == ToModule(r.lookup.builtins)
           && r.lookup.cell < |valid| && valid[r.lookup.cell]
           && Granted(grants, op.m, r.lookup.builtins, r.lookup.cell)
    else r == NoReply
  }

  lemma GrantsInRange(global: Module, ms: Heap, valid: seq<bool>, valid': seq<bool>, version: map<Module, nat>,
      grants: set<Grant>, op: Op)
    requires Sound(global, ms, valid, version, grants) && (op.Look? || op.Globals? || op.New?)
    requires |valid'| >= |valid| && forall c :: 0 <= c < |valid| ==> valid'[c] == valid[c]
    ensures CellsAfter(valid, valid', grants, op)
  {
    forall g | g in grants
      ensures g.cell < |valid|
    {
      assert GrantOk(global, ms, valid, version, g);
    }
  }

  method LookUp(vm: Modules, m: Module) returns (r: Reply)
    requires vm.Valid() && m in vm.modules
    modifies vm
    ensures vm.Valid() && old(vm.grants) <= vm.grants
    ensures WorldOf(vm.modules, vm.version) == old(WorldOf(vm.modules, vm.version))
    ensures CellsAfter(old(vm.valid), vm.valid, old(vm.grants), Look(m))
    ensures RightReply(vm.global, old(WorldOf(vm.modules, vm.version)), Look(m), r, vm.valid, vm.grants)
  {
    ghost var ms, valid, grants, version := vm.modules, vm.valid, vm.grants, vm.version;
    var lookup := vm.GetBuiltinsLookup(m);
    r := Looked(lookup);
    SameBindings(ms, vm.modules, version);
    GrantsInRange(vm.global, ms, valid, vm.valid, version, grants, Look(m));
    if lookup.Cached? {
      ghost var g := Grant(m, lookup.builtins, lookup.cell, version[lookup.builtins]);
      assert g in vm.grants && Granted(vm.grants, m, lookup.builtins, lookup.cell);
    }
  }

  method Create(vm: Modules, m: Module, b: Binding)
    requires vm.Valid() && Applicable(vm.modules.Keys, New(m, b))
    modifies vm
    ensures vm.Valid() && vm.grants == old(vm.grants)
    ensures WorldOf(vm.modules, vm.version) == Effect(old(WorldOf(vm.modules, vm.version)), New(m, b))
    ensures CellsAfter(old(vm.valid), vm.valid, old(vm.grants), New(m, b))
  {
    KnownModules(vm.modules, vm.version);
    GrantsInRange(vm.global, vm.modules, vm.valid, vm.valid, vm.version, vm.grants, New(m, b));
    vm.NewModule(m, b);
    OneBinding(old(vm.modules), vm.modules, vm.version, m, b);
  }

  method Bind(vm: Modules, m: Module, v: Binding)
    requires vm.Valid() && Applicable(vm.modules.Keys, Rebind(m, v))
    modifies vm
    ensures vm.Valid() && vm.grants == old(vm.grants)
    ensures WorldOf(vm.modules, vm.version) == Effect(old(WorldOf(vm.modules, vm.version)), Rebind(m, v))
    ensures CellsAfter(old(vm.valid), vm.valid, old(vm.grants), Rebind(m, v))
  {
    KnownModules(vm.modules, vm.version);
    vm.SetBuiltinsBinding(m, v);
    OneBinding(old(vm.modules), vm.modules, vm.version, m, v);
  }

  method NamespaceChanged(vm: Modules, m: Module)
    requires vm.Valid() && m in vm.modules
    modifies vm
    ensures vm.Valid() && vm.grants == old(vm.grants)
    ensures WorldOf(vm.modules, vm.version) == Effect(old(WorldOf(vm.modules, vm.version)), Invalidate(m))
    ensures CellsAfter(old(vm.valid), vm.valid, old(vm.grants), Invalidate(m))
  {
    ChangedWorld(vm.modules, vm.version, m, ModuleState(vm.modules[m].builtins, None, None, []));
    vm.InvalidateLookups(m);
  }

  lemma ChangedWorld(ms: Heap, version: map<Module, nat>, m: Module, s: ModuleState)
    requires m in ms && m in version && s.builtins == ms[m].builtins
    ensures WorldOf(ms[m := s], version[m := version[m] + 1]) == Effect(WorldOf(ms, version), Invalidate(m))
  {
    KnownModules(ms, version);
    SameBindings(ms, ms[m := s], version);
  }

  method ReadGlobals(vm: Modules, m: Module)
    requires vm.Valid() && m in vm.modules
    modifies vm
    ensures vm.Valid() && vm.grants == old(vm.grants)
    ensures WorldOf(vm.modules, vm.version) == Effect(old(WorldOf(vm.modules, vm.version)), Globals(m))
    ensures CellsAfter(old(vm.valid), vm.valid, old(vm.grants), Globals(m))
  {
    ghost var ms, valid, version := vm.modules, vm.valid, vm.version;
    var c := vm.GlobalsCell(m);
    SameWorld(ms, version, m, ms[m].(globalsCell := Some(c)));
    GrantsInRange(vm.global, ms, valid, vm.valid, version, vm.grants, Globals(m));
  }

  lemma SameWorld(ms: Heap, version: map<Module, nat>, m: Module, s: ModuleState)
    requires m in ms && s.builtins == ms[m].builtins
    ensures WorldOf(ms[m := s], version) == Effect(WorldOf(ms, version), Globals(m))
  {
    SameBindings(ms, ms[m := s], version);
  }

  /** One operation has its meaning, its reply is right, and it revokes exactly what it disturbs. */
  method Perform(vm: Modules, op: Op) returns (r: Reply)
    requires vm.Valid() && Applicable(vm.modules.Keys, op)
    modifies vm
    ensures vm.Valid() && old(vm.grants) <= vm.grants
    ensures WorldOf(vm.modules, vm.version) == Effect(old(WorldOf(vm.modules, vm.version)), op)
    ensures CellsAfter(old(vm.valid), vm.valid, old(vm.grants), op)
    ensures RightReply(vm.global, old(WorldOf(vm.modules, vm.version)), op, r, vm.valid, vm.grants)
  {
    r := NoReply;
    match op {
      case New(m, b) => Create(vm, m, b);
      case Rebind(m, v) => Bind(vm, m, v);
      case Delete(m) =>
        Bind(vm, m, NotPresent);
        DeleteIsRebind(old(WorldOf(vm.modules, vm.version)), m);
      case Look(m) => r := LookUp(vm, m);
      case Invalidate(m) => NamespaceChanged(vm, m);
      case Globals(m) => ReadGlobals(vm, m);
    }
  }

  lemma DeleteIsRebind(w: World, m: Module)
    ensures Effect(w, Delete(m)) == Effect(w, Rebind(m, NotPresent))
  {}

  /** Operation k of the run is carried out and ends lookups of m into b. */
  ghost predicate DisturbedAt(w0: World, ops: seq<Op>, k: nat, m: Module, b: Module)
    requires k < |ops|
  {
    Applicable(EffectAll(w0, ops[..k]).bindings.Keys, ops[k]) && Disturbs(ops[k], m, b)
  }

  /** An operation on modules that do not exist is not carried out. */
  method PerformIfApplicable(vm: Modules, op: Op) returns (r: Reply)
    requires vm.Valid()
    modifies vm
    ensures vm.Valid() && old(vm.grants) <= vm.grants
    ensures WorldOf(vm.modules, vm.version) == Effect(old(WorldOf(vm.modules, vm.version)), op)
    ensures forall g :: g in old(vm.grants) ==>
      g.cell < |old(vm.valid)| && g.cell < |vm.valid| &&
      vm.valid[g.cell] == (old(vm.valid)[g.cell] && !(Applicable(old(vm.modules).Keys, op) && Disturbs(op, g.m, g.b)))
    ensures RightReply(vm.global, old(WorldOf(vm.modules, vm.version)), op, r, vm.valid, vm.grants)
  {
    KnownModules(vm.modules, vm.version);
    r := NoReply;
    if Applicable(vm.modules.Keys, op) {
      r := Perform(vm, op);
    } else {
      GrantsInRange(vm.global, vm.modules, vm.valid, vm.valid, vm.version, vm.grants, Globals(0));
    }
  }

  /** After n operations, reply j was right when it was given, and its cell is still valid exactly if
      no operation since has rebound the module or invalidated it or its builtins. */
  ghost predicate ReplyHolds(global: Module, w0: World, ops: seq<Op>, j: nat, n: nat, r: Reply, valid: seq<bool>,
      grants: set<Grant>)
    requires j < n <= |ops|
  {
    var w, op := EffectAll(w0, ops[..j]), ops[j];
    if op.Look? && op.m in w.bindings then
      && r.Looked?
      && if EffectiveIn(w, global, op.m) == Other then r.lookup == Uncacheable else
           && r.lookup.Cached? && EffectiveIn(w, global, op.m) == ToModule(r.lookup.builtins)
           && Granted(grants, op.m, r.lookup.builtins, r.lookup.cell)
           && r.lookup.cell < |valid|
           && (valid[r.lookup.cell] <==> forall k :: j < k < n ==> !DisturbedAt(w0, ops, k, op.m, r.lookup.builtins))
    else r == NoReply
  }

  lemma ReplyStillHolds(global: Module, w0: World, ops: seq<Op>, j: nat, n: nat, r: Reply, valid: seq<bool>,
      valid': seq<bool>, grants: set<Grant>, grants': set<Grant>)
    requires j < n < |ops| && ReplyHolds(global, w0, ops, j, n, r, valid, grants) && grants <= grants'
    requires forall g :: g in grants ==>
      g.cell < |valid| && g.cell < |valid'| && valid'[g.cell] == (valid[g.cell] && !DisturbedAt(w0, ops, n, g.m, g.b))
    ensures ReplyHolds(global, w0, ops, j, n + 1, r, valid', grants')
  {
    if r.Looked? && r.lookup.Cached? && Granted(grants, ops[j].m, r.lookup.builtins, r.lookup.cell) {
      var g :| g in grants && g.m == ops[j].m && g.b == r.lookup.builtins && g.cell == r.lookup.cell;
      assert g in grants';
    }
  }

  ghost predicate RepliesHold(global: Module, w0: World, ops: seq<Op>, n: nat, replies: seq<Reply>, valid: seq<bool>,
      grants: set<Grant>)
    requires n <= |ops|
  {
    |replies| == n && forall j :: 0 <= j < n ==> ReplyHolds(global, w0, ops, j, n, replies[j], valid, grants)
  }

  /** One more operation, one more reply. */
  lemma RepliesStillHold(global: Module, w0: World, ops: seq<Op>, n: nat, replies: seq<Reply>, r: Reply,
      valid: seq<bool>, valid': seq<bool>, grants: set<Grant>, grants': set<Grant>)
    requires n < |ops| && RepliesHold(global, w0, ops, n, replies, valid, grants) && grants <= grants'
    requires forall g :: g in grants ==>
      g.cell < |valid| && g.cell < |valid'| && valid'[g.cell] == (valid[g.cell] && !DisturbedAt(w0, ops, n, g.m, g.b))
    requires RightReply(global, EffectAll(w0, ops[..n]), ops[n], r, valid', grants')
    ensures RepliesHold(global, w0, ops, n + 1, replies + [r], valid', grants')
  {
    forall j | 0 <= j < n
      ensures ReplyHolds(global, w0, ops, j, n + 1, replies[j], valid', grants')
    {
      ReplyStillHolds(global, w0, ops, j, n, replies[j], valid, valid', grants, grants');
    }
  }

  /** Cache coherence over every run: after any operations on any modules, including a module that
      is its own builtins, every lookup ever handed out whose cell is still valid is still right; and
      every lookup was answered as without a cache, by a cell that is valid exactly until something
      the answer depends on changed. */
  method Run(vm: Modules, ops: seq<Op>) returns (replies: seq<Reply>)
    requires vm.Valid()
    modifies vm
    ensures vm.Valid() && old(vm.grants) <= vm.grants
    ensures WorldOf(vm.modules, vm.version) == EffectAll(old(WorldOf(vm.modules, vm.version)), ops)
    ensures forall g :: g in vm.grants ==> Coherent(vm.global, vm.modules, vm.valid, vm.version, g)
    ensures RepliesHold(vm.global, old(WorldOf(vm.modules, vm.version)), ops, |ops|, replies, vm.valid, vm.grants)
  {
    ghost var w0 := WorldOf(vm.modules, vm.version);
    replies := [];
    var i := 0;
    while i < |ops|
      invariant 0 <= i <= |ops| && vm.Valid() && old(vm.grants) <= vm.grants
      invariant WorldOf(vm.modules, vm.version) == EffectAll(w0, ops[..i])
      invariant RepliesHold(vm.global, w0, ops, i, replies, vm.valid, vm.grants)
    {
      assert ops[..i + 1][..i] == ops[..i];
      ghost var valid, grants := vm.valid, vm.grants;
      KnownModules(vm.modules, vm.version);
      var r := PerformIfApplicable(vm, ops[i]);
      RepliesStillHold(vm.global, w0, ops, i, replies, r, valid, vm.valid, grants, vm.grants);
      replies := replies + [r];
      i := i + 1;
    }
    assert ops[..i] == ops;
  }
}
