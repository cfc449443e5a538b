/**
 * The registry of stats reporters: a map from reporter name to reporter.
 * Two built-in reporters, "json" and "prometheus", are counted and listed
 * without being stored.
 */
module ReporterRegistry {
  import opened Wrappers
  import Scope

  /** A registered reporter object, by identity. */
  type ReporterId = nat

  type Registry = map<string, ReporterId>

  /** The names listed after the registered ones unless built-ins are excluded. */
  const BUILTIN: seq<string> := ["json", "prometheus"]

  /** No reporter is registered under the empty name. */
  predicate Valid(reg: Registry)
  {
    "" !in reg
  }

  /**
   * `register_reporter`: a nameless reporter is a data-loss error, a taken
   * name is AlreadyExists with the registry unchanged; otherwise it is added.
   */
  function Register(reg: Registry, name: string, r: ReporterId): (res: (Registry, Status))
    ensures name == "" ==> res == (reg, Err(DataLoss))
    ensures name != "" && name in reg ==> res == (reg, Err(AlreadyExists))
    ensures res.1 == Ok <==> name != "" && name !in reg
    ensures res.1 == Ok ==> res.0.Keys == reg.Keys + {name} && res.0[name] == r
    ensures forall n :: n in reg ==> n in res.0 && res.0[n] == reg[n]
    ensures Valid(reg) ==> Valid(res.0)
  {
    if name == "" then (reg, Err(DataLoss))
    else if name in reg then (reg, Err(AlreadyExists))
    else (reg[name := r], Ok)
  }

  /** `has_reporter`: false for the empty name, otherwise membership. */
  function Has(reg: Registry, name: string): (b: bool)
    ensures b ==> name in reg
    ensures Valid(reg) ==> (b <==> name in reg)
  {
    if name == "" then false else name in reg
  }

  /** `remove_reporter`: nothing for the empty or an unknown name, otherwise erase. */
  function Remove(reg: Registry, name: string): (res: Registry)
    ensures name == "" ==> res == reg
    ensures name != "" ==> name !in res
    ensures forall n :: n in reg && n != name ==> n in res && res[n] == reg[n]
    ensures res.Keys <= reg.Keys
    ensures Valid(reg) ==> Valid(res)
  {
    if name == "" then reg
    else if name !in reg then reg
    else reg - {name}
  }

  /** `get_reporter`: null for the empty or an unknown name. */
  function Get(reg: Registry, name: string): (r: Option<ReporterId>)
    ensures r.Some? ==> name in reg && r.value == reg[name]
    ensures Valid(reg) && name in reg ==> r == Some(reg[name])
  {
    if name == "" then None
    else if name !in reg then None
    else Some(reg[name])
  }

  /** `reporter_size`: the registered reporters, plus the two built-ins unless excluded. */
  function Size(reg: Registry, excludeBuiltin: bool): (n: nat)
    ensures n == |reg| + (if excludeBuiltin then 0 else |BUILTIN|)
  {
    if !excludeBuiltin then |reg| + 2 else |reg|
  }

  /**
   * `list_reporter` by name: every registered name, then the built-in names
   * unless excluded. The map's iteration order is unspecified; the model
   * takes ascending order.
   */
  function ListNames(reg: Registry, excludeBuiltin: bool): (r: seq<string>)
    ensures |r| == Size(reg, excludeBuiltin)
    ensures forall n :: n in reg ==> n in r
    ensures excludeBuiltin ==> forall n :: n in r <==> n in reg
    ensures !excludeBuiltin ==> r[|r| - 2..] == BUILTIN
  {
    var names := Scope.SortedKeys(reg.Keys);
    if !excludeBuiltin then names + ["json", "prometheus"] else names
  }

  function ReportersOf(reg: Registry, ks: seq<string>): (r: seq<ReporterId>)
    requires forall k :: k in ks ==> k in reg
    ensures |r| == |ks|
    ensures forall i :: 0 <= i < |ks| ==> r[i] == reg[ks[i]]
  {
    if ks == [] then [] else [reg[ks[0]]] + ReportersOf(reg, ks[1..])
  }

  /** `list_reporter` by object: the registered reporters only, whatever the flag says. */
  function ListReporters(reg: Registry, excludeBuiltin: bool): (r: seq<ReporterId>)
    ensures |r| == |reg|
    ensures forall x :: x in r <==> exists n :: n in reg && reg[n] == x
  {
    var ks := Scope.SortedKeys(reg.Keys);
    var r := ReportersOf(reg, ks);
    assert forall n :: n in reg ==> reg[n] in r by {
      forall n | n in reg
        ensures reg[n] in r
      {
        var i :| 0 <= i < |ks| && ks[i] == n;
        assert r[i] == reg[n];
      }
    }
    r
  }

  /** A registered reporter can be found, and removing it restores the registry. */
  lemma RegisterThenRemove(reg: Registry, name: string, r: ReporterId)
    requires Valid(reg) && name != "" && name !in reg
    ensures var reg' := Register(reg, name, r).0;
            && Has(reg', name)
            && Get(reg', name) == Some(r)
            && Size(reg', true) == Size(reg, true) + 1
            && Remove(reg', name) == reg
  {
    var reg' := Register(reg, name, r).0;
    assert reg'.Keys == reg.Keys + {name};
  }

  /** A second reporter under a taken name is refused and the first stays. */
  lemma SecondRegistrationRefused(reg: Registry, name: string, r1: ReporterId, r2: ReporterId)
    requires Valid(reg) && name != "" && name !in reg
    ensures var reg1 := Register(reg, name, r1).0;
            && Register(reg1, name, r2) == (reg1, Err(AlreadyExists))
            && Get(Register(reg1, name, r2).0, name) == Some(r1)
  {
  }
}
