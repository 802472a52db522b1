/** Propagating io through a call graph, and naming for each io function the callee that makes it so. */
module EffectInference {
  import opened ByteOrder
  import Core
  import Permutations

  const MAX_FUNCTIONS: nat := 64

  datatype Effect = Pure | Io

  datatype EffectGraph = EffectGraph(names: seq<Text>, directIo: seq<bool>, calls: seq<seq<bool>>) {
    function Count(): nat { |names| }
  }

  /** The shape the fixed-size arrays of the graph give it. */
  predicate Shaped(g: EffectGraph) {
    && |g.directIo| == g.Count() && |g.calls| == g.Count()
    && forall f :: 0 <= f < g.Count() ==> |g.calls[f]| == g.Count()
  }

  predicate ValidGraph(g: EffectGraph) {
    && 0 < g.Count() <= MAX_FUNCTIONS
    && (forall f :: 0 <= f < g.Count() ==> g.names[f] != [])
    && (forall f, h :: 0 <= f < h < g.Count() ==> g.names[f] != g.names[h])
  }

  // ----- what the result should be -----

  /** A chain of calls ending in a function that prints by itself. */
  ghost predicate IoPath(g: EffectGraph, path: seq<nat>)
    requires Shaped(g)
  {
    && path != []
    && (forall i :: 0 <= i < |path| ==> path[i] < g.Count())
    && (forall i :: 0 <= i < |path| - 1 ==> g.calls[path[i]][path[i + 1]])
    && g.directIo[path[|path| - 1]]
  }

  ghost predicate IsIo(g: EffectGraph, f: nat)
    requires Shaped(g)
  {
    exists path: seq<nat> :: IoPath(g, path) && path[0] == f
  }

  /** c is the name-least io callee of f. */
  ghost predicate Forces(g: EffectGraph, f: nat, c: nat)
    requires Shaped(g) && f < g.Count()
  {
    && c < g.Count() && g.calls[f][c] && IsIo(g, c)
    && forall o :: 0 <= o < g.Count() && o != c && g.calls[f][o] && IsIo(g, o) ==> Before(g.names[c], g.names[o])
  }

  lemma IoByCall(g: EffectGraph, f: nat, c: nat)
    requires Shaped(g) && f < g.Count() && c < g.Count() && g.calls[f][c] && IsIo(g, c)
    ensures IsIo(g, f)
  {
    var path: seq<nat> :| IoPath(g, path) && path[0] == c;
    var longer := [f] + path;
    assert IoPath(g, longer) && longer[0] == f;
  }

  lemma IoDirectly(g: EffectGraph, f: nat)
    requires Shaped(g) && f < g.Count() && g.directIo[f]
    ensures IsIo(g, f)
  {
    var path: seq<nat> := [f];
    assert IoPath(g, path) && path[0] == f;
  }

  /** A function is io exactly when it prints itself or calls one that is. */
  lemma IoUnfolds(g: EffectGraph, f: nat)
    requires Shaped(g) && f < g.Count() && IsIo(g, f) && !g.directIo[f]
    ensures exists c :: 0 <= c < g.Count() && g.calls[f][c] && IsIo(g, c)
  {
    var path: seq<nat> :| IoPath(g, path) && path[0] == f;
    var rest := path[1..];
    assert IoPath(g, rest);
    assert IsIo(g, rest[0]);
  }

  ghost predicate Marks(g: EffectGraph, effects: seq<Effect>)
    requires Shaped(g)
  {
    |effects| == g.Count() && forall f :: 0 <= f < g.Count() ==> (effects[f] == Io <==> IsIo(g, f))
  }

  /** Nothing io is reachable by a call from anything still pure. */
  ghost predicate Closed(g: EffectGraph, effects: seq<Effect>)
    requires Shaped(g) && |effects| == g.Count()
  {
    && (forall f :: 0 <= f < g.Count() && g.directIo[f] ==> effects[f] == Io)
    && (forall f, c :: 0 <= f < g.Count() && 0 <= c < g.Count() && g.calls[f][c] && effects[c] == Io ==> effects[f] == Io)
  }

  /** Every printing function is marked, and nothing is marked that is not io. */
  ghost predicate SoundMarks(g: EffectGraph, effects: seq<Effect>)
    requires Shaped(g)
  {
    && |effects| == g.Count()
    && (forall f :: 0 <= f < g.Count() && effects[f] == Io ==> IsIo(g, f))
    && (forall f :: 0 <= f < g.Count() && g.directIo[f] ==> effects[f] == Io)
  }

  /** The callers below a bound have been swept. */
  ghost predicate ClosedBelow(g: EffectGraph, effects: seq<Effect>, bound: nat)
    requires Shaped(g) && |effects| == g.Count() && bound <= g.Count()
  {
    forall f, c :: 0 <= f < bound && 0 <= c < g.Count() && g.calls[f][c] && effects[c] == Io ==> effects[f] == Io
  }

  lemma {:induction false} ClosedCoversPath(g: EffectGraph, effects: seq<Effect>, path: seq<nat>)
    requires Shaped(g) && |effects| == g.Count() && Closed(g, effects) && IoPath(g, path)
    ensures effects[path[0]] == Io
    decreases |path|
  {
    if |path| > 1 {
      var rest := path[1..];
      assert IoPath(g, rest);
      ClosedCoversPath(g, effects, rest);
      assert g.calls[path[0]][rest[0]];
    }
  }

  /** The least fixed point is below every fixed point: a closed marking that marks only io functions is exact. */
  lemma ClosedIsExact(g: EffectGraph, effects: seq<Effect>)
    requires Shaped(g) && |effects| == g.Count() && Closed(g, effects)
    requires forall f :: 0 <= f < g.Count() && effects[f] == Io ==> IsIo(g, f)
    ensures Marks(g, effects)
  {
    forall f | 0 <= f < g.Count() && IsIo(g, f)
      ensures effects[f] == Io
    {
      var path: seq<nat> :| IoPath(g, path) && path[0] == f;
      ClosedCoversPath(g, effects, path);
    }
  }

  // ----- the inference -----

  function PureCount(effects: seq<Effect>): nat {
    if effects == [] then 0 else (if effects[0] == Pure then 1 else 0) + PureCount(effects[1..])
  }

  lemma {:induction false} PureCountDrops(effects: seq<Effect>, f: nat)
    requires f < |effects| && effects[f] == Pure
    ensures PureCount(effects[f := Io]) == PureCount(effects) - 1
  {
    if f > 0 {
      PureCountDrops(effects[1..], f - 1);
      assert effects[f := Io][1..] == effects[1..][f - 1 := Io];
    } else {
      assert effects[0 := Io][1..] == effects[1..];
    }
  }

  datatype Forcing = NoCallee | Callee(index: nat)

  class EffectResult {
    const effects: array<Effect>
    const forcingCallee: array<Forcing>

    constructor ()
      ensures fresh(effects) && fresh(forcingCallee)
      ensures effects.Length == MAX_FUNCTIONS && forcingCallee.Length == MAX_FUNCTIONS
    {
      effects := new Effect[MAX_FUNCTIONS](_ => Pure);
      forcingCallee := new Forcing[MAX_FUNCTIONS](_ => NoCallee);
    }

    /** Marks every function from which a printing one can be reached. */
    method Propagate(g: EffectGraph)
      requires Shaped(g) && ValidGraph(g) && effects.Length == MAX_FUNCTIONS
      requires forall f :: 0 <= f < g.Count() ==> effects[f] == if g.directIo[f] then Io else Pure
      modifies effects
      ensures Marks(g, effects[..g.Count()])
    {
      forall f | 0 <= f < g.Count() && g.directIo[f] ensures IsIo(g, f) { IoDirectly(g, f); }
      var n := g.Count();
      var changed := true;
      while changed
        invariant SoundMarks(g, effects[..n])
        invariant !changed ==> Closed(g, effects[..n])
        decreases PureCount(effects[..n]), changed
      {
        changed := Pass(g);
      }
      ClosedIsExact(g, effects[..n]);
    }

    /** The first io callee of a caller, or the function count when it has none. */
    method FindIoCallee(g: EffectGraph, caller: nat) returns (callee: nat)
      requires Shaped(g) && caller < g.Count() <= effects.Length
      ensures callee <= g.Count()
      ensures callee < g.Count() ==> g.calls[caller][callee] && effects[callee] == Io
      ensures callee == g.Count() ==> forall c :: 0 <= c < g.Count() && g.calls[caller][c] ==> effects[c] == Pure
    {
      callee := 0;
      while callee < g.Count()
        invariant callee <= g.Count()
        invariant forall c :: 0 <= c < callee && g.calls[caller][c] ==> effects[c] == Pure
      {
        if g.calls[caller][callee] && effects[callee] == Io { return; }
        callee := callee + 1;
      }
    }

    /** Marks one caller that calls something io. */
    method MarkCaller(g: EffectGraph, caller: nat, callee: nat)
      requires Shaped(g) && caller < g.Count() <= effects.Length && callee < g.Count()
      requires SoundMarks(g, effects[..g.Count()])
      requires effects[caller] == Pure && g.calls[caller][callee] && effects[callee] == Io
      modifies effects
      ensures SoundMarks(g, effects[..g.Count()])
      ensures effects[..g.Count()] == old(effects[..g.Count()])[caller := Io]
      ensures PureCount(effects[..g.Count()]) == old(PureCount(effects[..g.Count()])) - 1
    {
      IoByCall(g, caller, callee);
      PureCountDrops(effects[..g.Count()], caller);
      effects[caller] := Io;
      assert effects[..g.Count()] == old(effects[..g.Count()])[caller := Io];
    }

    /** One sweep over the callers; reports whether it marked anything. */
    method Pass(g: EffectGraph) returns (changed: bool)
      requires Shaped(g) && g.Count() <= effects.Length
      requires SoundMarks(g, effects[..g.Count()])
      modifies effects
      ensures SoundMarks(g, effects[..g.Count()])
      ensures changed ==> PureCount(effects[..g.Count()]) < old(PureCount(effects[..g.Count()]))
      ensures !changed ==> effects[..g.Count()] == old(effects[..g.Count()]) && Closed(g, effects[..g.Count()])
    {
      hide IsIo;
      var n := g.Count();
      changed := false;
      var caller := 0;
      while caller < n
        invariant 0 <= caller <= n
        invariant SoundMarks(g, effects[..n])
        invariant changed ==> PureCount(effects[..n]) < old(PureCount(effects[..n]))
        invariant !changed ==> effects[..n] == old(effects[..n]) && ClosedBelow(g, effects[..n], caller)
      {
        if effects[caller] == Pure {
          var callee := FindIoCallee(g, caller);
          if callee < n {
            MarkCaller(g, caller, callee);
            changed := true;
          }
        }
        caller := caller + 1;
      }
    }

    /** The name-least io callee of a function that is io only through its calls. */
    method Select(g: EffectGraph, caller: nat) returns (selected: nat)
      requires Shaped(g) && ValidGraph(g) && effects.Length == MAX_FUNCTIONS && Marks(g, effects[..g.Count()])
      requires caller < g.Count() && effects[caller] == Io && !g.directIo[caller]
      ensures Forces(g, caller, selected)
    {
      var n := g.Count();
      IoUnfolds(g, caller);
      var found: Forcing := NoCallee;
      var callee := 0;
      while callee < n
        invariant 0 <= callee <= n
        invariant found.Callee? ==>
          && found.index < callee && g.calls[caller][found.index] && effects[found.index] == Io
          && forall o :: 0 <= o < callee && o != found.index && g.calls[caller][o] && effects[o] == Io ==>
               Before(g.names[found.index], g.names[o])
        invariant found.NoCallee? ==> forall o :: 0 <= o < callee ==> !(g.calls[caller][o] && effects[o] == Io)
      {
        if g.calls[caller][callee] && effects[callee] == Io {
          if found.NoCallee? {
            found := Callee(callee);
          } else {
            BeforeTotal(g.names[callee], g.names[found.index]);
            if Before(g.names[callee], g.names[found.index]) {
              forall o | 0 <= o < callee && o != found.index && g.calls[caller][o] && effects[o] == Io
                ensures Before(g.names[callee], g.names[o])
              {
                BeforeTransitive(g.names[callee], g.names[found.index], g.names[o]);
              }
              found := Callee(callee);
            }
          }
        }
        callee := callee + 1;
      }
      assert effects[..n][0..] == effects[..n];
      selected := found.index;
    }

    /** Checks the declared names: some, not too many, none empty, none twice. */
    static method Validate(g: EffectGraph) returns (ok: bool)
      requires Shaped(g)
      ensures ok == ValidGraph(g)
    {
      if g.Count() == 0 || g.Count() > MAX_FUNCTIONS { return false; }
      var left := 0;
      while left < g.Count()
        invariant 0 <= left <= g.Count()
        invariant forall f, h :: 0 <= f < left && f < h < g.Count() ==> g.names[f] != g.names[h]
        invariant forall f :: 0 <= f < left ==> g.names[f] != []
      {
        if g.names[left] == [] { return false; }
        var right := left + 1;
        while right < g.Count()
          invariant left < right <= g.Count() && forall h :: left < h < right ==> g.names[left] != g.names[h]
        {
          if g.names[left] == g.names[right] { return false; }
          right := right + 1;
        }
        left := left + 1;
      }
      ok := true;
    }

    /**
     Accepts exactly the valid graphs. A function is io exactly when a chain of
     calls leads from it to one that prints, and every function that is io only
     through its calls is explained by its name-least io callee.
     */
    method Infer(g: EffectGraph) returns (ok: bool)
      requires Shaped(g) && effects.Length == MAX_FUNCTIONS && forcingCallee.Length == MAX_FUNCTIONS
      modifies effects, forcingCallee
      ensures ok == ValidGraph(g)
      ensures !ok ==> effects[..] == old(effects[..]) && forcingCallee[..] == old(forcingCallee[..])
      ensures ok ==> Marks(g, effects[..g.Count()])
      ensures ok ==> forall f :: 0 <= f < g.Count() ==>
        match forcingCallee[f]
        case NoCallee => g.directIo[f] || !IsIo(g, f)
        case Callee(c) => !g.directIo[f] && IsIo(g, f) && Forces(g, f, c)
    {
      ok := Validate(g);
      if !ok { return; }
      forall f | 0 <= f < MAX_FUNCTIONS { effects[f] := Pure; }
      forall f | 0 <= f < MAX_FUNCTIONS { forcingCallee[f] := Callee(0); }
      var n := g.Count();
      var caller := 0;
      while caller < n
        invariant 0 <= caller <= n
        invariant forall f :: 0 <= f < caller ==>
          effects[f] == (if g.directIo[f] then Io else Pure) && forcingCallee[f] == NoCallee
      {
        effects[caller] := if g.directIo[caller] then Io else Pure;
        forcingCallee[caller] := NoCallee;
        caller := caller + 1;
      }
      Propagate(g);
      caller := 0;
      while caller < n
        invariant 0 <= caller <= n && Marks(g, effects[..n])
        invariant forall f :: caller <= f < n ==> forcingCallee[f] == NoCallee
        invariant forall f :: 0 <= f < caller ==>
          match forcingCallee[f]
          case NoCallee => g.directIo[f] || !IsIo(g, f)
          case Callee(c) => !g.directIo[f] && IsIo(g, f) && Forces(g, f, c)
      {
        if !g.directIo[caller] && effects[caller] == Io {
          var selected := Select(g, caller);
          assert effects[..n][caller] == Io;
          forcingCallee[caller] := Callee(selected);
        } else {
          assert effects[..n][caller] == effects[caller];
        }
        caller := caller + 1;
      }
      ok := true;
    }
  }

  // ----- independence from declaration order -----

  /** g' declares the functions of g in another order: its function i is function order[i] of g. */
  ghost predicate Reordered(g: EffectGraph, g': EffectGraph, order: seq<nat>)
    requires Shaped(g) && Shaped(g')
  {
    && |order| == g.Count() == g'.Count() && Core.IsPermutation(order)
    && (forall i :: 0 <= i < |order| ==> g'.names[i] == g.names[order[i]] && g'.directIo[i] == g.directIo[order[i]])
    && (forall i, j :: 0 <= i < |order| && 0 <= j < |order| ==> g'.calls[i][j] == g.calls[order[i]][order[j]])
  }

  lemma PathMapped(g: EffectGraph, g': EffectGraph, order: seq<nat>, path: seq<nat>)
    requires Shaped(g) && Shaped(g') && Reordered(g, g', order) && IoPath(g', path)
    ensures IsIo(g, order[path[0]])
  {
    var mapped := seq(|path|, i requires 0 <= i < |path| => order[path[i]]);
    forall i | 0 <= i < |mapped| - 1
      ensures g.calls[mapped[i]][mapped[i + 1]]
    {
      assert g'.calls[path[i]][path[i + 1]];
    }
    assert IoPath(g, mapped) && mapped[0] == order[path[0]];
  }

  lemma PathPulledBack(g: EffectGraph, g': EffectGraph, order: seq<nat>, path: seq<nat>, f: nat)
    requires Shaped(g) && Shaped(g') && Reordered(g, g', order)
    requires IoPath(g, path) && f < |order| && order[f] == path[0]
    ensures IsIo(g', f)
    decreases |path|
  {
    if |path| == 1 {
      IoDirectly(g', f);
    } else {
      var rest := path[1..];
      assert IoPath(g, rest);
      Permutations.SlotIsWritten(order, rest[0]);
      var h :| 0 <= h < |order| && order[h] == rest[0];
      PathPulledBack(g, g', order, rest, h);
      assert g.calls[path[0]][path[1]];
      IoByCall(g', f, h);
    }
  }

  /** Declaration order changes neither effects nor explanations. */
  lemma OrderIndependent(g: EffectGraph, g': EffectGraph, order: seq<nat>, f: nat)
    requires Shaped(g) && Shaped(g') && Reordered(g, g', order) && f < |order|
    ensures IsIo(g', f) <==> IsIo(g, order[f])
    ensures forall c :: 0 <= c < |order| ==> (Forces(g', f, c) <==> Forces(g, order[f], order[c]))
  {
    forall h | 0 <= h < |order|
      ensures IsIo(g', h) <==> IsIo(g, order[h])
    {
      if IsIo(g', h) {
        var path: seq<nat> :| IoPath(g', path) && path[0] == h;
        PathMapped(g, g', order, path);
      }
      if IsIo(g, order[h]) {
        var path: seq<nat> :| IoPath(g, path) && path[0] == order[h];
        PathPulledBack(g, g', order, path, h);
      }
    }
    forall c | 0 <= c < |order| && Forces(g', f, c)
      ensures Forces(g, order[f], order[c])
    {
      forall o | 0 <= o < g.Count() && o != order[c] && g.calls[order[f]][o] && IsIo(g, o)
        ensures Before(g.names[order[c]], g.names[o])
      {
        Permutations.SlotIsWritten(order, o);
        var h :| 0 <= h < |order| && order[h] == o;
      }
    }
  }
}
