/**
 * The global variable registry: 32 maps from full name to variable, each
 * holding the names whose hash selects it, and the `expose` / `hide`
 * operations of a variable. The shards together behave as one map.
 */
module Variable {
  import opened Wrappers
  import NormalizeName
  import Scope
  import VariableType

  const SUB_MAP_COUNT: nat := 32
  const WORD: nat := 0x1_0000_0000_0000_0000

  /** A character of a name taken as the signed `char` the hash adds: its low byte, sign-extended. */
  function SignedChar(c: char): (r: int)
    ensures -128 <= r < 128
    ensures r % 256 == (c as int) % 256
  {
    var b := (c as int) % 256;
    if b < 128 then b else b - 256
  }

  /** `h = h * 5 + c` over the characters, in `size_t` arithmetic. */
  function HashFrom(h: nat, s: string): (r: nat)
    requires h < WORD
    ensures r < WORD
    decreases |s|
  {
    if s == [] then h else HashFrom((h * 5 + SignedChar(s[0])) % 0x1_0000_0000_0000_0000, s[1..])
  }

  /** `sub_map_index`: which of the 32 maps holds a name. */
  function SubMapIndex(s: string): (r: nat)
    ensures r < SUB_MAP_COUNT
  {
    if s == [] then 0 else HashFrom(0, s) % 32
  }

  /** The same hash computed modulo 32 throughout. */
  function HashFrom32(h: nat, s: string): (r: nat)
    requires h < 32
    ensures r < 32
    decreases |s|
  {
    if s == [] then h else HashFrom32((h * 5 + SignedChar(s[0])) % 32, s[1..])
  }

  lemma ModOfMod(a: int)
    ensures (a % 0x1_0000_0000_0000_0000) % 32 == a % 32
  {
    var q := a / 0x1_0000_0000_0000_0000;
    var r := a % 0x1_0000_0000_0000_0000;
    assert a == q * 0x1_0000_0000_0000_0000 + r;
    var t := q * 0x800_0000_0000_0000;
    assert a == t * 32 + r;
    assert (t * 32 + r) % 32 == r % 32;
  }

  lemma Mod32Step(h: int, c: int)
    ensures (h * 5 + c) % 32 == ((h % 32) * 5 + c) % 32
  {
    var q, r := h / 32, h % 32;
    var x := r * 5 + c;
    assert h == 32 * q + r;
    assert h * 5 + c == 160 * q + x;
    var y, p := x % 32, x / 32;
    assert x == 32 * p + y && 0 <= y < 32;
    assert h * 5 + c == 32 * (5 * q + p) + y;
  }

  lemma {:induction false} HashAgrees(h: nat, s: string)
    requires h < WORD
    ensures HashFrom(h, s) % 32 == HashFrom32(h % 32, s)
    decreases |s|
  {
    if s != [] {
      var c := SignedChar(s[0]);
      var h' := (h * 5 + c) % 0x1_0000_0000_0000_0000;
      ModOfMod(h * 5 + c);
      Mod32Step(h, c);
      assert h' % 32 == ((h % 32) * 5 + c) % 32;
      HashAgrees(h', s[1..]);
    }
  }

  /**
   * Masking with 31 after a wrapping 64-bit fold equals folding modulo 32,
   * so only the low five bits of the hash matter; the empty name, handled
   * separately, would hash to 0 anyway.
   */
  lemma SubMapIndexIsHashMod32(s: string)
    ensures SubMapIndex(s) == HashFrom32(0, s)
  {
    HashAgrees(0, s);
  }

  type VarId = nat
  type Shards = seq<map<string, VarId>>

  /** Every shard holds exactly the names whose index selects it. */
  predicate WellSharded(sh: Shards)
  {
    |sh| == SUB_MAP_COUNT && forall i, k :: 0 <= i < |sh| && k in sh[i] ==> SubMapIndex(k) == i
  }

  /** The first `n` shards, merged into one map. */
  function FlatUpTo(sh: Shards, n: nat): (r: map<string, VarId>)
    requires n <= |sh|
  {
    if n == 0 then map[] else FlatUpTo(sh, n - 1) + sh[n - 1]
  }

  /** The registry as one map. */
  function Flat(sh: Shards): map<string, VarId>
    requires |sh| == SUB_MAP_COUNT
  {
    FlatUpTo(sh, SUB_MAP_COUNT)
  }

  lemma {:induction false} FlatUpToAt(sh: Shards, n: nat, k: string)
    requires WellSharded(sh) && n <= |sh|
    ensures k in FlatUpTo(sh, n) <==> SubMapIndex(k) < n && k in sh[SubMapIndex(k)]
    ensures k in FlatUpTo(sh, n) ==> FlatUpTo(sh, n)[k] == sh[SubMapIndex(k)][k]
  {
    if n > 0 {
      FlatUpToAt(sh, n - 1, k);
    }
  }

  /** A key is in the registry exactly when it is in the shard its index selects, with the same value. */
  lemma FlatAt(sh: Shards, k: string)
    requires WellSharded(sh)
    ensures k in Flat(sh) <==> k in sh[SubMapIndex(k)]
    ensures k in Flat(sh) ==> Flat(sh)[k] == sh[SubMapIndex(k)][k]
  {
    FlatUpToAt(sh, SUB_MAP_COUNT, k);
  }

  /** Looking a name up in its own shard. */
  function Find(sh: Shards, k: string): (r: Option<VarId>)
    requires |sh| == SUB_MAP_COUNT
  {
    var m := sh[SubMapIndex(k)];
    if k in m then Some(m[k]) else None
  }

  /** Lookup in the selected shard is lookup in the merged map. */
  lemma FindIsFlatLookup(sh: Shards, k: string)
    requires WellSharded(sh)
    ensures Find(sh, k) == if k in Flat(sh) then Some(Flat(sh)[k]) else None
  {
    FlatAt(sh, k);
  }

  function Insert(sh: Shards, k: string, v: VarId): (r: Shards)
    requires |sh| == SUB_MAP_COUNT
    ensures |r| == SUB_MAP_COUNT
  {
    var i := SubMapIndex(k);
    var m: map<string, VarId> := sh[i][k := v];
    sh[i := m]
  }

  function Erase(sh: Shards, k: string): (r: Shards)
    requires |sh| == SUB_MAP_COUNT
    ensures |r| == SUB_MAP_COUNT
  {
    var i := SubMapIndex(k);
    sh[i := sh[i] - {k}]
  }

  /** Inserting into the selected shard inserts into the merged map. */
  lemma InsertIsFlatInsert(sh: Shards, k: string, v: VarId)
    requires WellSharded(sh)
    ensures WellSharded(Insert(sh, k, v))
    ensures Flat(Insert(sh, k, v)) == Flat(sh)[k := v]
  {
    var sh' := Insert(sh, k, v);
    assert WellSharded(sh');
    forall j: string
      ensures (j in Flat(sh') <==> j in Flat(sh)[k := v])
      ensures j in Flat(sh') ==> Flat(sh')[j] == Flat(sh)[k := v][j]
    {
      FlatAt(sh, j);
      FlatAt(sh', j);
    }
  }

  /** Erasing from the selected shard erases from the merged map. */
  lemma EraseIsFlatErase(sh: Shards, k: string)
    requires WellSharded(sh)
    ensures WellSharded(Erase(sh, k))
    ensures Flat(Erase(sh, k)) == Flat(sh) - {k}
  {
    var sh' := Erase(sh, k);
    assert WellSharded(sh');
    forall j: string
      ensures (j in Flat(sh') <==> j in Flat(sh) - {k})
      ensures j in Flat(sh') ==> Flat(sh')[j] == (Flat(sh) - {k})[j]
    {
      FlatAt(sh, j);
      FlatAt(sh', j);
    }
  }

  /** The sum of the sizes of the first `n` shards. */
  function SizeUpTo(sh: Shards, n: nat): nat
    requires n <= |sh|
  {
    if n == 0 then 0 else SizeUpTo(sh, n - 1) + |sh[n - 1]|
  }

  lemma ShardDisjoint(sh: Shards, n: nat)
    requires WellSharded(sh) && n < |sh|
    ensures FlatUpTo(sh, n).Keys * sh[n].Keys == {}
  {
    forall k | k in FlatUpTo(sh, n).Keys
      ensures k !in sh[n].Keys
    {
      FlatUpToAt(sh, n, k);
    }
  }

  lemma {:induction false} SizeUpToIsFlatSize(sh: Shards, n: nat)
    requires WellSharded(sh) && n <= |sh|
    ensures SizeUpTo(sh, n) == |FlatUpTo(sh, n)|
  {
    if n > 0 {
      SizeUpToIsFlatSize(sh, n - 1);
      ShardDisjoint(sh, n - 1);
      MapUnionKeys(FlatUpTo(sh, n - 1), sh[n - 1]);
    }
  }

  lemma MapUnionKeys(m: map<string, VarId>, n: map<string, VarId>)
    ensures (m + n).Keys == m.Keys + n.Keys
  {
  }

  /** Counting shard by shard counts the merged map. */
  lemma SizeIsFlatSize(sh: Shards)
    requires WellSharded(sh)
    ensures SizeUpTo(sh, SUB_MAP_COUNT) == |Flat(sh)|
  {
    SizeUpToIsFlatSize(sh, SUB_MAP_COUNT);
  }

  /** A variable's registration fields; `attr` is the only one `reset` keeps. */
  datatype Var = Var(name: string, fullName: string, help: string, exposed: bool,
                     scope: Option<Scope.Scope>, attr: VariableType.Attr)

  /** Not exposed, with every registration field cleared. */
  predicate Unregistered(v: Var)
  {
    !v.exposed && v.name == "" && v.fullName == "" && v.help == "" && v.scope == None
  }

  /** `reset`: clears the registration and keeps the attribute. */
  function Reset(v: Var): (r: Var)
    ensures Unregistered(r) && r.attr == v.attr
  {
    v.(name := "", fullName := "", help := "", exposed := false, scope := None)
  }

  /** The registry shards and every live variable. */
  datatype World = World(shards: Shards, vars: map<VarId, Var>)

  /**
   * The registry maps each exposed variable's full name to it, and nothing
   * else; a variable that is not exposed has its fields cleared.
   */
  predicate Valid(w: World)
  {
    EntriesNameTheirVariable(w)
    && (var reg := Flat(w.shards);
        && (forall k :: k in reg ==> w.vars[reg[k]].exposed)
        && (forall id :: id in w.vars && w.vars[id].exposed ==> w.vars[id].fullName in reg && reg[w.vars[id].fullName] == id)
        && (forall id :: id in w.vars && !w.vars[id].exposed ==> Unregistered(w.vars[id])))
  }

  /** The shards are well formed and each entry is a live variable whose full name is the key. */
  predicate EntriesNameTheirVariable(w: World)
  {
    WellSharded(w.shards)
    && (var reg := Flat(w.shards);
        forall k :: k in reg ==> reg[k] in w.vars && w.vars[reg[k]].fullName == k)
  }

  /** No shard holds anything. */
  function EmptyShards(): (sh: Shards)
    ensures WellSharded(sh) && Flat(sh) == map[]
  {
    var sh := seq(SUB_MAP_COUNT, _ => map[]);
    assert forall k :: k !in Flat(sh) by {
      forall k {
        FlatAt(sh, k);
      }
    }
    sh
  }

  /** Constructing a variable: nothing registered, the attribute it was given. */
  function Construct(w: World, id: VarId, attr: VariableType.Attr): (r: World)
    requires id !in w.vars
    ensures Valid(w) ==> Valid(r)
    ensures id in r.vars && Unregistered(r.vars[id]) && r.vars[id].attr == attr
    ensures r.shards == w.shards
  {
    World(w.shards, w.vars[id := Var("", "", "", false, None, attr)])
  }

  /** `hide`: false when not exposed; otherwise erase the full name and reset. */
  function Hide(w: World, id: VarId): (r: (World, bool))
    requires |w.shards| == SUB_MAP_COUNT && id in w.vars
    ensures !w.vars[id].exposed ==> r == (w, false)
    ensures |r.0.shards| == SUB_MAP_COUNT
    ensures r.0.vars.Keys == w.vars.Keys
    ensures r.0.vars[id].attr == w.vars[id].attr
    ensures w.vars[id].exposed ==> Unregistered(r.0.vars[id])
    ensures forall o :: o in w.vars && o != id ==> r.0.vars[o] == w.vars[o]
  {
    var v := w.vars[id];
    if !v.exposed then (w, false)
    else
      var found := Find(w.shards, v.fullName).Some?;
      (World(Erase(w.shards, v.fullName), w.vars[id := Reset(v)]), found)
  }

  /** The registration `hide` removes, if any. */
  function OwnEntry(w: World, id: VarId): set<string>
    requires id in w.vars
  {
    if w.vars[id].exposed then {w.vars[id].fullName} else {}
  }

  /**
   * On a valid registry `hide` removes exactly the variable's own entry,
   * reports whether it was exposed, and keeps the registry valid.
   */
  lemma HideSpec(w: World, id: VarId)
    requires Valid(w) && id in w.vars
    ensures Valid(Hide(w, id).0)
    ensures Flat(Hide(w, id).0.shards) == Flat(w.shards) - OwnEntry(w, id)
    ensures Hide(w, id).1 <==> w.vars[id].exposed
    ensures Unregistered(Hide(w, id).0.vars[id])
  {
    var v := w.vars[id];
    if v.exposed {
      FindIsFlatLookup(w.shards, v.fullName);
      EraseIsFlatErase(w.shards, v.fullName);
      var w' := Hide(w, id).0;
      var reg := Flat(w.shards);
      var reg' := Flat(w'.shards);
      assert reg' == reg - {v.fullName};
      forall k | k in reg'
        ensures reg'[k] in w'.vars && w'.vars[reg'[k]].exposed && w'.vars[reg'[k]].fullName == k
      {
        assert reg[k] != id;
      }
    }
  }

  /** The full name a variable exposed as `name` in `sc` registers under. */
  function FullNameOf(sc: Scope.Scope, name: string): string
  {
    Scope.FullyQualifiedName(sc, NormalizeName.ToUnderscoredName("", name))
  }

  /**
   * The part of `expose_impl` after hiding: normalise the name, qualify it by
   * the scope and insert it; a taken full name resets the variable and fails.
   */
  function Register(w: World, id: VarId, name: string, help: string, sc: Scope.Scope): (r: (World, Status))
    requires |w.shards| == SUB_MAP_COUNT && id in w.vars
    ensures |r.0.shards| == SUB_MAP_COUNT
    ensures r.0.vars.Keys == w.vars.Keys && r.0.vars[id].attr == w.vars[id].attr
    ensures forall o :: o in w.vars && o != id ==> r.0.vars[o] == w.vars[o]
    ensures r.1 == Ok || r.1 == Err(AlreadyExists)
    ensures r.1 == Ok ==> r.0.vars[id].exposed && r.0.vars[id].help == help && r.0.vars[id].scope == Some(sc)
    ensures r.1 == Err(AlreadyExists) ==> Unregistered(r.0.vars[id]) && r.0.shards == w.shards
  {
    var v := w.vars[id];
    var n := NormalizeName.ToUnderscoredName(v.name, name);
    var full := Scope.FullyQualifiedName(sc, n);
    if Find(w.shards, full).Some? then
      (w.(vars := w.vars[id := Reset(v)]), Err(AlreadyExists))
    else
      var exposed := v.(name := n, fullName := full, help := help, exposed := true, scope := Some(sc));
      (World(Insert(w.shards, full, id), w.vars[id := exposed]), Ok)
  }

  /**
   * `expose_impl`: an empty name fails before anything changes; otherwise
   * the old registration is hidden and the variable registered afresh.
   */
  function ExposeImpl(w: World, id: VarId, name: string, help: string, sc: Scope.Scope): (r: (World, Status))
    requires |w.shards| == SUB_MAP_COUNT && id in w.vars
    ensures name == "" ==> r == (w, Err(InvalidArgument))
    ensures name != "" ==> r.1 == Ok || r.1 == Err(AlreadyExists)
    ensures |r.0.shards| == SUB_MAP_COUNT
    ensures r.0.vars.Keys == w.vars.Keys && r.0.vars[id].attr == w.vars[id].attr
    ensures forall o :: o in w.vars && o != id ==> r.0.vars[o] == w.vars[o]
    ensures r.1 == Ok ==> r.0.vars[id].exposed && r.0.vars[id].help == help && r.0.vars[id].scope == Some(sc)
    ensures r.1 == Err(AlreadyExists) ==> Unregistered(r.0.vars[id])
  {
    if name == "" then (w, Err(InvalidArgument))
    else Register(Hide(w, id).0, id, name, help, sc)
  }

  /** `expose`: a missing scope means the root scope. */
  function Expose(w: World, id: VarId, name: string, help: string, scope: Option<Scope.Scope>, root: Scope.Scope): (r: (World, Status))
    requires |w.shards| == SUB_MAP_COUNT && id in w.vars
    ensures name == "" ==> r == (w, Err(InvalidArgument))
    ensures r.0.vars.Keys == w.vars.Keys
    ensures r.1 == Ok ==> r.0.vars[id].scope == Some(if scope.Some? then scope.value else root)
  {
    ExposeImpl(w, id, name, help, if scope.Some? then scope.value else root)
  }

  /**
   * On a valid registry, with a non-empty name: exposing succeeds exactly
   * when the full name is free once the variable's own entry is gone. Then
   * the registry gains that one entry; otherwise the entry holding the name
   * is untouched and the variable's own entry is still gone.
   */
  lemma ExposeSpec(w: World, id: VarId, name: string, help: string, sc: Scope.Scope)
    requires Valid(w) && id in w.vars && name != ""
    ensures var r := ExposeImpl(w, id, name, help, sc);
            var base := Flat(w.shards) - OwnEntry(w, id);
            var full := FullNameOf(sc, name);
            && Valid(r.0)
            && (r.1 == Ok <==> full !in base)
            && (r.1 == Ok ==> Flat(r.0.shards) == base[full := id] && r.0.vars[id].fullName == full)
            && (r.1 != Ok ==> r.1 == Err(AlreadyExists) && Flat(r.0.shards) == base && base[full] != id)
  {
    HideSpec(w, id);
    RegisterSpec(Hide(w, id).0, id, name, help, sc);
  }

  /** Registering an unregistered variable on a valid registry. */
  lemma RegisterSpec(w1: World, id: VarId, name: string, help: string, sc: Scope.Scope)
    requires Valid(w1) && id in w1.vars && Unregistered(w1.vars[id])
    ensures var r := Register(w1, id, name, help, sc);
            var base := Flat(w1.shards);
            var full := FullNameOf(sc, name);
            && Valid(r.0)
            && (r.1 == Ok <==> full !in base)
            && (r.1 == Ok ==> Flat(r.0.shards) == base[full := id] && r.0.vars[id].fullName == full)
            && (r.1 != Ok ==> r.1 == Err(AlreadyExists) && Flat(r.0.shards) == base && base[full] != id)
  {
    var full := FullNameOf(sc, name);
    FindIsFlatLookup(w1.shards, full);
    var r := Register(w1, id, name, help, sc);
    if Find(w1.shards, full).None? {
      InsertIsFlatInsert(w1.shards, full, id);
      ExposeAddsValid(w1, id, full, r.0);
    } else {
      RegisterTaken(w1, id, name, help, sc);
    }
  }

  lemma RegisterTaken(w1: World, id: VarId, name: string, help: string, sc: Scope.Scope)
    requires Valid(w1) && id in w1.vars && Unregistered(w1.vars[id])
    requires FullNameOf(sc, name) in Flat(w1.shards)
    ensures Register(w1, id, name, help, sc).0 == w1.(vars := w1.vars[id := Reset(w1.vars[id])])
    ensures Flat(w1.shards)[FullNameOf(sc, name)] != id
    ensures Valid(Register(w1, id, name, help, sc).0)
  {
    var v := w1.vars[id];
    assert Reset(v) == v;
    assert w1.vars[id := v] == w1.vars;
    assert w1.(vars := w1.vars) == w1;
    FindIsFlatLookup(w1.shards, FullNameOf(sc, name));
  }

  lemma ExposeAddsValid(w1: World, id: VarId, full: string, w2: World)
    requires Valid(w1) && id in w1.vars && Unregistered(w1.vars[id])
    requires full !in Flat(w1.shards)
    requires WellSharded(w2.shards) && Flat(w2.shards) == Flat(w1.shards)[full := id]
    requires w2.vars.Keys == w1.vars.Keys && w2.vars[id].exposed && w2.vars[id].fullName == full
    requires forall o :: o in w1.vars && o != id ==> w2.vars[o] == w1.vars[o]
    ensures Valid(w2)
  {
    var reg := Flat(w1.shards);
    forall k | k in reg
      ensures reg[k] != id
    {
    }
  }

  /** Exposing twice moves the registration: the first full name is released and the second taken. */
  lemma ReExposeMoves(w: World, id: VarId, first: string, name: string, help: string, sc: Scope.Scope)
    requires Valid(w) && id in w.vars && first != "" && name != ""
    requires !w.vars[id].exposed
    requires ExposeImpl(w, id, first, help, sc).1 == Ok
    requires FullNameOf(sc, first) != FullNameOf(sc, name)
    requires FullNameOf(sc, name) !in Flat(w.shards)
    ensures var w1 := ExposeImpl(w, id, first, help, sc).0;
            var r := ExposeImpl(w1, id, name, help, sc);
            && r.1 == Ok
            && FullNameOf(sc, first) !in Flat(r.0.shards)
            && FullNameOf(sc, name) in Flat(r.0.shards)
            && r.0.vars[id].fullName == FullNameOf(sc, name)
  {
    ExposeSpec(w, id, first, help, sc);
    var w1 := ExposeImpl(w, id, first, help, sc).0;
    ExposeSpec(w1, id, name, help, sc);
  }

  /**
   * A second variable exposed under a taken name fails and leaves the
   * registry as it was: the name still belongs to the first.
   */
  lemma DuplicateLeavesRegistry(w: World, first: VarId, second: VarId, name: string, help: string, sc: Scope.Scope)
    requires Valid(w) && first in w.vars && second in w.vars && first != second
    requires !w.vars[second].exposed && name != ""
    requires FullNameOf(sc, name) in Flat(w.shards) && Flat(w.shards)[FullNameOf(sc, name)] == first
    ensures var r := ExposeImpl(w, second, name, help, sc);
            && r.1 == Err(AlreadyExists)
            && Flat(r.0.shards) == Flat(w.shards)
            && !r.0.vars[second].exposed
  {
    ExposeSpec(w, second, name, help, sc);
  }

  /** Whether a variable passes an optional filter; no filter passes everything. */
  predicate Passes(filter: Option<Var -> bool>, v: Var)
  {
    filter.None? || filter.value(v)
  }

  /** The names of one shard whose variable passes the filter. */
  function Selected(m: map<string, VarId>, vars: map<VarId, Var>, filter: Option<Var -> bool>): set<string>
  {
    set k | k in m && m[k] in vars && Passes(filter, vars[m[k]])
  }

  /** One shard's contribution to `count_exposed`: its size, or the members the filter accepts. */
  function ShardCount(m: map<string, VarId>, vars: map<VarId, Var>, filter: Option<Var -> bool>): nat
  {
    if filter.None? then |m| else |Selected(m, vars, filter)|
  }

  function CountUpTo(w: World, filter: Option<Var -> bool>, n: nat): nat
    requires n <= |w.shards|
  {
    if n == 0 then 0 else CountUpTo(w, filter, n - 1) + ShardCount(w.shards[n - 1], w.vars, filter)
  }

  /** `count_exposed`, summed over the shards. */
  function CountExposed(w: World, filter: Option<Var -> bool>): nat
    requires |w.shards| == SUB_MAP_COUNT
  {
    CountUpTo(w, filter, SUB_MAP_COUNT)
  }

  /** The full names of the variables the keys select. */
  function FullNames(ks: seq<string>, m: map<string, VarId>, vars: map<VarId, Var>): (r: seq<string>)
    requires forall k :: k in ks ==> k in m && m[k] in vars
    ensures |r| == |ks|
  {
    if ks == [] then [] else [vars[m[ks[0]]].fullName] + FullNames(ks[1..], m, vars)
  }

  /**
   * One shard's part of `list_exposed`. The order inside a shard is the hash
   * map's iteration order, which is unspecified; the model takes ascending order.
   */
  function ShardList(m: map<string, VarId>, vars: map<VarId, Var>, filter: Option<Var -> bool>): seq<string>
  {
    FullNames(Scope.SortedKeys(Selected(m, vars, filter)), m, vars)
  }

  function ListUpTo(w: World, filter: Option<Var -> bool>, n: nat): seq<string>
    requires n <= |w.shards|
  {
    if n == 0 then [] else ListUpTo(w, filter, n - 1) + ShardList(w.shards[n - 1], w.vars, filter)
  }

  /** `list_exposed`: shard 0 first, each shard's selected full names. */
  function ListExposed(w: World, filter: Option<Var -> bool>): seq<string>
    requires |w.shards| == SUB_MAP_COUNT
  {
    ListUpTo(w, filter, SUB_MAP_COUNT)
  }

  predicate Distinct(s: seq<string>)
  {
    forall i, j :: 0 <= i < j < |s| ==> s[i] != s[j]
  }

  /** In a valid registry a key's full name is the key itself. */
  lemma {:induction false} FullNamesAreKeys(w: World, i: nat, ks: seq<string>)
    requires EntriesNameTheirVariable(w) && i < SUB_MAP_COUNT
    requires forall k :: k in ks ==> k in w.shards[i] && w.shards[i][k] in w.vars
    ensures FullNames(ks, w.shards[i], w.vars) == ks
  {
    if ks != [] {
      FlatAt(w.shards, ks[0]);
      FullNamesAreKeys(w, i, ks[1..]);
    }
  }

  /** The keys of one shard that the filter selects, in the order the model lists them. */
  function ShardKeys(m: map<string, VarId>, vars: map<VarId, Var>, filter: Option<Var -> bool>): seq<string>
  {
    Scope.SortedKeys(Selected(m, vars, filter))
  }

  function KeysUpTo(w: World, filter: Option<Var -> bool>, n: nat): seq<string>
    requires n <= |w.shards|
  {
    if n == 0 then [] else KeysUpTo(w, filter, n - 1) + ShardKeys(w.shards[n - 1], w.vars, filter)
  }

  /** In a valid registry every listed full name is the key it was found under. */
  lemma {:induction false} ListIsKeys(w: World, filter: Option<Var -> bool>, n: nat)
    requires EntriesNameTheirVariable(w) && n <= SUB_MAP_COUNT
    ensures ListUpTo(w, filter, n) == KeysUpTo(w, filter, n)
  {
    if n > 0 {
      ListIsKeys(w, filter, n - 1);
      ShardListIsKeys(w, filter, n - 1);
    }
  }

  lemma ShardListIsKeys(w: World, filter: Option<Var -> bool>, i: nat)
    requires EntriesNameTheirVariable(w) && i < SUB_MAP_COUNT
    ensures ShardList(w.shards[i], w.vars, filter) == ShardKeys(w.shards[i], w.vars, filter)
  {
    FullNamesAreKeys(w, i, ShardKeys(w.shards[i], w.vars, filter));
  }

  lemma ShardCountIsLength(w: World, filter: Option<Var -> bool>, i: nat)
    requires EntriesNameTheirVariable(w) && i < SUB_MAP_COUNT
    ensures |ShardKeys(w.shards[i], w.vars, filter)| == ShardCount(w.shards[i], w.vars, filter)
  {
    var m := w.shards[i];
    if filter.None? {
      forall k | k in m
        ensures m[k] in w.vars
      {
        FlatAt(w.shards, k);
      }
      assert Selected(m, w.vars, filter) == m.Keys;
    }
  }

  lemma {:induction false} CountIsLength(w: World, filter: Option<Var -> bool>, n: nat)
    requires EntriesNameTheirVariable(w) && n <= SUB_MAP_COUNT
    ensures |KeysUpTo(w, filter, n)| == CountUpTo(w, filter, n)
  {
    if n > 0 {
      CountIsLength(w, filter, n - 1);
      ShardCountIsLength(w, filter, n - 1);
    }
  }

  /** The registered names in the first `n` shards that the filter accepts. */
  predicate ListedUpTo(w: World, filter: Option<Var -> bool>, n: nat, x: string)
    requires |w.shards| == SUB_MAP_COUNT
  {
    var reg := Flat(w.shards);
    x in reg && SubMapIndex(x) < n && reg[x] in w.vars && Passes(filter, w.vars[reg[x]])
  }

  lemma ShardMembers(w: World, filter: Option<Var -> bool>, i: nat, x: string)
    requires WellSharded(w.shards) && i < SUB_MAP_COUNT
    ensures x in Selected(w.shards[i], w.vars, filter) <==> ListedUpTo(w, filter, i + 1, x) && SubMapIndex(x) == i
  {
    FlatAt(w.shards, x);
  }

  lemma DistinctConcat(a: seq<string>, b: seq<string>)
    requires Distinct(a) && Distinct(b)
    requires forall x :: x in a ==> x !in b
    ensures Distinct(a + b)
  {
    forall i, j | 0 <= i < j < |a + b|
      ensures (a + b)[i] != (a + b)[j]
    {
      if i < |a| && j >= |a| {
        assert (a + b)[i] in a && (a + b)[j] in b;
      }
    }
  }

  lemma {:induction false} KeysUpToSpec(w: World, filter: Option<Var -> bool>, n: nat)
    requires WellSharded(w.shards) && n <= SUB_MAP_COUNT
    ensures Distinct(KeysUpTo(w, filter, n))
    ensures forall x :: x in KeysUpTo(w, filter, n) <==> ListedUpTo(w, filter, n, x)
  {
    if n > 0 {
      KeysUpToSpec(w, filter, n - 1);
      var a := KeysUpTo(w, filter, n - 1);
      var b := ShardKeys(w.shards[n - 1], w.vars, filter);
      ListStepMembers(w, filter, n, a, b);
      DistinctConcat(a, b);
    }
  }

  lemma ListStepMembers(w: World, filter: Option<Var -> bool>, n: nat, a: seq<string>, b: seq<string>)
    requires WellSharded(w.shards) && 0 < n <= SUB_MAP_COUNT
    requires forall x :: x in a <==> ListedUpTo(w, filter, n - 1, x)
    requires b == Scope.SortedKeys(Selected(w.shards[n - 1], w.vars, filter))
    ensures forall x :: x in a + b <==> ListedUpTo(w, filter, n, x)
    ensures forall x :: x in a ==> x !in b
  {
    forall x
      ensures x in a + b <==> ListedUpTo(w, filter, n, x)
      ensures x in a ==> x !in b
    {
      ShardMembers(w, filter, n - 1, x);
    }
  }

  /**
   * `list_exposed` names every registered variable the filter accepts, once
   * each, and `count_exposed` is its length.
   */
  lemma ListExposedSpec(w: World, filter: Option<Var -> bool>)
    requires Valid(w)
    ensures var l := ListExposed(w, filter);
            var reg := Flat(w.shards);
            && Distinct(l)
            && |l| == CountExposed(w, filter)
            && (forall x :: x in l <==> x in reg && Passes(filter, w.vars[reg[x]]))
  {
    ListIsKeys(w, filter, SUB_MAP_COUNT);
    CountIsLength(w, filter, SUB_MAP_COUNT);
    KeysUpToSpec(w, filter, SUB_MAP_COUNT);
    assert forall x :: SubMapIndex(x) < SUB_MAP_COUNT;
  }

  /** Without a filter, `count_exposed` is the size of the registry. */
  lemma CountExposedIsRegistrySize(w: World)
    requires Valid(w)
    ensures CountExposed(w, None) == |Flat(w.shards)|
  {
    CountNoneIsSize(w, SUB_MAP_COUNT);
    SizeIsFlatSize(w.shards);
  }

  lemma {:induction false} CountNoneIsSize(w: World, n: nat)
    requires n <= |w.shards|
    ensures CountUpTo(w, None, n) == SizeUpTo(w.shards, n)
  {
    if n > 0 {
      CountNoneIsSize(w, n - 1);
    }
  }

  /** `describe_exposed` into a stream: NotFound for an unknown name. */
  function DescribeExposed(w: World, name: string, describe: VarId -> string): (r: Result<string>)
    requires |w.shards| == SUB_MAP_COUNT
    ensures r.Failure? ==> r.code == NotFound
  {
    match Find(w.shards, name)
    case None => Failure(NotFound)
    case Some(id) => Success(describe(id))
  }

  /** `describe_exposed` returning a string: the description, or "" on failure. */
  function DescribeText(w: World, name: string, describe: VarId -> string): string
    requires |w.shards| == SUB_MAP_COUNT
  {
    var r := DescribeExposed(w, name, describe);
    if r.Success? then r.value else ""
  }

  /** Describing consults the registry: found names are described, unknown ones fail. */
  lemma DescribeSpec(w: World, name: string, describe: VarId -> string)
    requires WellSharded(w.shards)
    ensures var reg := Flat(w.shards);
            && (name in reg ==> DescribeExposed(w, name, describe) == Success(describe(reg[name])))
            && (name !in reg ==> DescribeExposed(w, name, describe) == Failure(NotFound))
            && (name !in reg ==> DescribeText(w, name, describe) == "")
            && (name in reg ==> DescribeText(w, name, describe) == describe(reg[name]))
  {
    FindIsFlatLookup(w.shards, name);
  }
}
