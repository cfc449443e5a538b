/**
 * Scopes: a prefix, a separator and a set of tags. A scope's id is its
 * prefix followed by its tags in ascending key order, and the scope
 * instance registers every built scope under that id.
 */
module Scope {
  import opened Wrappers
  import opened Strings
  import NormalizeName

  type Tags = map<string, string>

  predicate StrictlySorted(ks: seq<string>)
  {
    forall i, j :: 0 <= i < j < |ks| ==> Less(ks[i], ks[j])
  }

  predicate IsMinimum(k: string, keys: set<string>)
  {
    k in keys && forall y :: y in keys ==> k == y || Less(k, y)
  }

  lemma {:induction false} MinimumExists(keys: set<string>)
    requires keys != {}
    ensures exists k :: IsMinimum(k, keys)
    decreases |keys|
  {
    var x :| x in keys;
    if keys != {x} {
      MinimumExists(keys - {x});
      var k :| IsMinimum(k, keys - {x});
      LessTotal(x, k);
      if Less(x, k) {
        forall y | y in keys
          ensures x == y || Less(x, y)
        {
          if y != x && y != k {
            LessTransitive(x, k, y);
          }
        }
        assert IsMinimum(x, keys);
      } else {
        assert IsMinimum(k, keys);
      }
    } else {
      assert IsMinimum(x, keys);
    }
  }

  lemma MinimumUnique(keys: set<string>)
    ensures forall a, b :: IsMinimum(a, keys) && IsMinimum(b, keys) ==> a == b
  {
    forall a, b | IsMinimum(a, keys) && IsMinimum(b, keys)
      ensures a == b
    {
      if a != b {
        LessAsymmetric(a, b);
      }
    }
  }

  /** Putting the minimum before the sorted rest keeps the order strict and the keys distinct. */
  lemma MinimumFirst(k: string, keys: set<string>, rest: seq<string>)
    requires IsMinimum(k, keys) && StrictlySorted(rest)
    requires forall x :: x in rest <==> x in keys - {k}
    requires forall i, j :: 0 <= i < j < |rest| ==> rest[i] != rest[j]
    ensures StrictlySorted([k] + rest)
    ensures forall i, j :: 0 <= i < j < |[k] + rest| ==> ([k] + rest)[i] != ([k] + rest)[j]
  {
    var r := [k] + rest;
    forall i, j | 0 <= i < j < |r| ensures Less(r[i], r[j]) && r[i] != r[j] {
      assert r[j] == rest[j - 1] && rest[j - 1] in keys - {k};
      if i > 0 {
        assert r[i] == rest[i - 1];
      }
    }
  }

  /** The keys in ascending order, as `scope_id` sorts them. */
  function SortedKeys(keys: set<string>): (r: seq<string>)
    ensures StrictlySorted(r)
    ensures forall x :: x in r <==> x in keys
    ensures |r| == |keys|
    ensures forall i, j :: 0 <= i < j < |r| ==> r[i] != r[j]
    decreases |keys|
  {
    if keys == {} then []
    else
      MinimumExists(keys);
      MinimumUnique(keys);
      var k :| IsMinimum(k, keys);
      var rest := SortedKeys(keys - {k});
      MinimumFirst(k, keys, rest);
      [k] + rest
  }

  /** "k=v" for each key of `ks`, in that order. */
  function TagPairs(tags: Tags, ks: seq<string>): (r: seq<string>)
    requires forall i :: 0 <= i < |ks| ==> ks[i] in tags
    ensures |r| == |ks|
  {
    if |ks| == 0 then [] else [ks[0] + "=" + tags[ks[0]]] + TagPairs(tags, ks[1..])
  }

  /**
   * `scope_id`: the prefix alone when there are no tags, otherwise the
   * prefix, '+', and the "key=value" pairs in ascending key order joined
   * by ','. Being a function of the tag map, it cannot depend on the
   * order the map is iterated in.
   */
  function ScopeId(prefix: string, tags: Tags): (id: string)
    ensures |tags| == 0 ==> id == prefix
    ensures |tags| > 0 ==> |id| > |prefix| && id[..|prefix| + 1] == prefix + "+"
  {
    if |tags| == 0 then prefix
    else prefix + "+" + Join(TagPairs(tags, SortedKeys(tags.Keys)), ",")
  }

  /** The characters an id uses to separate its parts. */
  const ID_SEPARATORS: set<char> := {'+', ',', '='}

  /** Tags whose keys and values do not contain the id's separators. */
  predicate PlainTags(tags: Tags)
  {
    forall k :: k in tags ==> NoneOf(k, ID_SEPARATORS) && NoneOf(tags[k], ID_SEPARATORS)
  }

  /** Reads "k=v" pairs back into a map; None if a piece is not a pair. */
  function ParsePairs(ps: seq<string>): Option<Tags>
  {
    if |ps| == 0 then Some(map[])
    else
      var kv := Split(ps[0], {'='});
      if |kv| != 2 then None
      else match ParsePairs(ps[1..])
        case None => None
        case Some(rest) => Some(rest[kv[0] := kv[1]])
  }

  /** Reads an id back into its prefix and tags. */
  function ParseId(id: string): Option<(string, Tags)>
  {
    var parts := Split(id, {'+'});
    if |parts| == 1 then Some((id, map[]))
    else if |parts| == 2 then
      match ParsePairs(Split(parts[1], {','}))
      case None => None
      case Some(tags) => Some((parts[0], tags))
    else None
  }

  function Restrict(tags: Tags, ks: seq<string>): Tags
  {
    map k | k in tags && k in ks :: tags[k]
  }

  lemma PairSplit(k: string, v: string, c: char)
    requires NoneOf(k, {c}) && NoneOf(v, {c})
    ensures Split(k + [c] + v, {c}) == [k, v]
  {
    assert Join([k, v], [c]) == k + [c] + v;
    JoinSplit([k, v], c);
  }

  lemma {:induction false} ParsePairsRoundTrip(tags: Tags, ks: seq<string>)
    requires PlainTags(tags)
    requires forall i :: 0 <= i < |ks| ==> ks[i] in tags
    requires forall i, j :: 0 <= i < j < |ks| ==> ks[i] != ks[j]
    ensures ParsePairs(TagPairs(tags, ks)) == Some(Restrict(tags, ks))
  {
    if |ks| > 0 {
      var k := ks[0];
      PairSplit(k, tags[k], '=');
      ParsePairsRoundTrip(tags, ks[1..]);
      assert TagPairs(tags, ks)[1..] == TagPairs(tags, ks[1..]);
      assert Restrict(tags, ks[1..])[k := tags[k]] == Restrict(tags, ks);
    }
  }

  lemma {:induction false} JoinNoneOf(parts: seq<string>, sep: string, cs: set<char>)
    requires forall i :: 0 <= i < |parts| ==> NoneOf(parts[i], cs)
    requires NoneOf(sep, cs)
    ensures NoneOf(Join(parts, sep), cs)
    decreases |parts|
  {
    if |parts| > 1 {
      JoinNoneOf(parts[1..], sep, cs);
    }
  }

  lemma {:induction false} TagPairsNoneOf(tags: Tags, ks: seq<string>, cs: set<char>)
    requires forall i :: 0 <= i < |ks| ==> ks[i] in tags
    requires cs <= ID_SEPARATORS - {'='}
    requires PlainTags(tags)
    ensures forall i :: 0 <= i < |ks| ==> NoneOf(TagPairs(tags, ks)[i], cs)
  {
    if |ks| > 0 {
      TagPairsNoneOf(tags, ks[1..], cs);
      assert TagPairs(tags, ks)[1..] == TagPairs(tags, ks[1..]);
    }
  }

  /** The pieces of a tagged id, split at '+' and then at ','. */
  lemma TaggedIdPieces(prefix: string, tags: Tags)
    requires NoneOf(prefix, {'+'}) && PlainTags(tags) && |tags| > 0
    ensures var pairs := TagPairs(tags, SortedKeys(tags.Keys));
      && Split(ScopeId(prefix, tags), {'+'}) == [prefix, Join(pairs, ",")]
      && Split(Join(pairs, ","), {','}) == pairs
  {
    var ks := SortedKeys(tags.Keys);
    var pairs := TagPairs(tags, ks);
    TagPairsNoneOf(tags, ks, {'+'});
    TagPairsNoneOf(tags, ks, {','});
    JoinNoneOf(pairs, ",", {'+'});
    PairSplit(prefix, Join(pairs, ","), '+');
    JoinSplit(pairs, ',');
  }

  /**
   * The id can be read back: for a prefix without '+' and tags free of
   * '+', ',' and '=', parsing the id gives the prefix and the tags.
   */
  lemma ParseIdRoundTrip(prefix: string, tags: Tags)
    requires NoneOf(prefix, {'+'}) && PlainTags(tags)
    ensures ParseId(ScopeId(prefix, tags)) == Some((prefix, tags))
  {
    if |tags| == 0 {
      JoinSplit([prefix], '+');
      assert tags == map[];
    } else {
      TaggedRoundTrip(prefix, tags);
    }
  }

  lemma TaggedRoundTrip(prefix: string, tags: Tags)
    requires NoneOf(prefix, {'+'}) && PlainTags(tags) && |tags| > 0
    ensures ParseId(ScopeId(prefix, tags)) == Some((prefix, tags))
  {
    var ks := SortedKeys(tags.Keys);
    var pairs := TagPairs(tags, ks);
    TaggedIdPieces(prefix, tags);
    ParsePairsRoundTrip(tags, ks);
    RestrictToAllKeys(tags, ks);
    ParseIdOfPieces(ScopeId(prefix, tags), prefix, Join(pairs, ","), tags);
  }

  lemma ParseIdOfPieces(id: string, prefix: string, rest: string, tags: Tags)
    requires Split(id, {'+'}) == [prefix, rest]
    requires ParsePairs(Split(rest, {','})) == Some(tags)
    ensures ParseId(id) == Some((prefix, tags))
  {
  }

  lemma RestrictToAllKeys(tags: Tags, ks: seq<string>)
    requires forall k :: k in tags ==> k in ks
    ensures Restrict(tags, ks) == tags
  {
  }

  /** Different scopes get different ids, as long as their parts are plain. */
  lemma ScopeIdInjective(p1: string, t1: Tags, p2: string, t2: Tags)
    requires NoneOf(p1, {'+'}) && PlainTags(t1)
    requires NoneOf(p2, {'+'}) && PlainTags(t2)
    requires ScopeId(p1, t1) == ScopeId(p2, t2)
    ensures p1 == p2 && t1 == t2
  {
    ParseIdRoundTrip(p1, t1);
    ParseIdRoundTrip(p2, t2);
  }

  /** A scope as the code builds it: normalised prefix, its id, separator and tags. */
  datatype Scope = Scope(prefix: string, id: string, separator: string, tags: Tags)

  /**
   * `fully_qualified_name`: the name itself under an empty prefix, otherwise
   * prefix, separator and name.
   */
  function FullyQualifiedName(s: Scope, name: string): (r: string)
    ensures |r| >= |name| && r[|r| - |name|..] == name
    ensures s.prefix == "" ==> r == name
    ensures s.prefix != "" ==> |r| == |s.prefix| + |s.separator| + |name| && r[..|s.prefix|] == s.prefix
  {
    if s.prefix == "" then name else s.prefix + s.separator + name
  }

  /**
   * The tags of a sub-scope: every key of either map; on a clash the
   * parent's value stays, because inserting into the map does not
   * overwrite an existing key.
   */
  function Merge(parent: Tags, added: Tags): (r: Tags)
    ensures r.Keys == parent.Keys + added.Keys
    ensures forall k :: k in parent ==> r[k] == parent[k]
    ensures forall k :: k in added && k !in parent ==> r[k] == added[k]
  {
    added + parent
  }

  /** What `parse_tags` does with one ';'-separated segment. */
  function SegmentPair(seg: string): seq<string>
  {
    SkipEmpty(Split(seg, {':'}))
  }

  function ParseSegments(segs: seq<string>, acc: Tags): Tags
  {
    if |segs| == 0 then acc
    else
      var pair := SegmentPair(segs[0]);
      ParseSegments(segs[1..], if |pair| == 2 then acc[pair[0] := pair[1]] else acc)
  }

  /**
   * `parse_tags`: the non-empty ';'-separated segments whose non-empty
   * ':'-separated pieces are exactly two become key and value; a later
   * segment with the same key overwrites an earlier one.
   */
  function ParseTags(text: string): Tags
  {
    ParseSegments(SkipEmpty(Split(text, {';'})), map[])
  }

  /** The map a list of pairs describes, a later pair winning over an earlier one. */
  function PairsToMap(kvs: seq<(string, string)>): Tags
  {
    if |kvs| == 0 then map[] else map[kvs[0].0 := kvs[0].1] + PairsToMap(kvs[1..])
  }

  /** Tag text in the flags' syntax: "k1:v1;k2:v2". */
  function TagText(kvs: seq<(string, string)>): string
  {
    Join(TagSegments(kvs), ";")
  }

  function TagSegments(kvs: seq<(string, string)>): (r: seq<string>)
    ensures |r| == |kvs|
  {
    if |kvs| == 0 then [] else [kvs[0].0 + ":" + kvs[0].1] + TagSegments(kvs[1..])
  }

  /** Keys and values that are non-empty and free of ';' and ':'. */
  predicate PlainPairs(kvs: seq<(string, string)>)
  {
    forall i :: 0 <= i < |kvs| ==>
      kvs[i].0 != "" && kvs[i].1 != "" && NoneOf(kvs[i].0, {';', ':'}) && NoneOf(kvs[i].1, {';', ':'})
  }

  lemma {:induction false} SkipEmptyKeeps(parts: seq<string>)
    requires forall i :: 0 <= i < |parts| ==> parts[i] != ""
    ensures SkipEmpty(parts) == parts
  {
    if |parts| > 0 {
      SkipEmptyKeeps(parts[1..]);
      assert [parts[0]] + parts[1..] == parts;
    }
  }

  lemma SegmentPairOf(k: string, v: string)
    requires k != "" && v != "" && NoneOf(k, {':'}) && NoneOf(v, {':'})
    ensures SegmentPair(k + ":" + v) == [k, v]
  {
    PairSplit(k, v, ':');
    SkipEmptyKeeps([k, v]);
  }

  lemma OverlayStep(acc: Tags, k: string, v: string, rest: Tags)
    ensures acc[k := v] + rest == acc + (map[k := v] + rest)
  {
  }

  lemma {:induction false} SegmentsOfPairs(kvs: seq<(string, string)>, acc: Tags)
    requires PlainPairs(kvs)
    ensures ParseSegments(TagSegments(kvs), acc) == acc + PairsToMap(kvs)
  {
    if |kvs| > 0 {
      var (k, v) := kvs[0];
      SegmentPairOf(k, v);
      assert TagSegments(kvs)[1..] == TagSegments(kvs[1..]);
      SegmentsOfPairs(kvs[1..], acc[k := v]);
      OverlayStep(acc, k, v, PairsToMap(kvs[1..]));
    }
  }

  lemma {:induction false} TagSegmentsPlain(kvs: seq<(string, string)>)
    requires PlainPairs(kvs)
    ensures forall i :: 0 <= i < |kvs| ==> TagSegments(kvs)[i] != "" && NoneOf(TagSegments(kvs)[i], {';'})
  {
    if |kvs| > 0 {
      TagSegmentsPlain(kvs[1..]);
      assert TagSegments(kvs)[1..] == TagSegments(kvs[1..]);
    }
  }

  /**
   * Reading tag text written from a list of pairs gives the map of those
   * pairs, a later pair for the same key winning.
   */
  lemma ParseTagsRoundTrip(kvs: seq<(string, string)>)
    requires PlainPairs(kvs)
    ensures ParseTags(TagText(kvs)) == PairsToMap(kvs)
  {
    var segs := TagSegments(kvs);
    if |kvs| > 0 {
      TagSegmentsPlain(kvs);
      JoinSplit(segs, ';');
      SkipEmptyKeeps(segs);
    }
    SegmentsOfPairs(kvs, map[]);
    assert map[] + PairsToMap(kvs) == PairsToMap(kvs);
  }

  /** Segments that are not exactly two non-empty pieces are ignored. */
  lemma IgnoresMalformedSegment(segs: seq<string>, bad: string, acc: Tags)
    requires |SegmentPair(bad)| != 2
    ensures ParseSegments([bad] + segs, acc) == ParseSegments(segs, acc)
  {
    assert ([bad] + segs)[1..] == segs;
  }

  /**
   * The builder: the scope-separator flag's value is the default
   * separator, the prefix starts empty and so do the tags.
   */
  datatype Builder = Builder(prefix: string, separator: string, tags: Tags)

  /** The scope-separator flag's default. */
  const DEFAULT_SEPARATOR: string := "_"

  function NewBuilder(separatorFlag: string): (b: Builder)
    ensures b.prefix == "" && b.separator == separatorFlag && b.tags == map[]
  {
    Builder("", separatorFlag, map[])
  }

  /** `tags(map)`: the builder's tags become exactly the given map. */
  function WithTags(b: Builder, tags: Tags): (r: Builder)
    ensures r.tags == tags && r.prefix == b.prefix && r.separator == b.separator
  {
    b.(tags := tags)
  }

  /** `tags(key, value)`: one key is set or overwritten, the others stay. */
  function WithTag(b: Builder, key: string, value: string): (r: Builder)
    ensures r.tags.Keys == b.tags.Keys + {key} && r.tags[key] == value
    ensures forall k :: k in b.tags && k != key ==> r.tags[k] == b.tags[k]
    ensures r.prefix == b.prefix && r.separator == b.separator
  {
    b.(tags := b.tags[key := value])
  }

  /** Setting a map after a single tag discards that tag unless the map has it. */
  lemma TagsReplaceEarlierTag(b: Builder, key: string, value: string, tags: Tags)
    requires key !in tags
    ensures key !in WithTags(WithTag(b, key, value), tags).tags
  {
  }

  /**
   * `build_only`: no scope for an empty prefix; otherwise a scope with the
   * normalised prefix, the id made from it and the tags, and the builder's
   * separator. No registry is involved.
   */
  function BuildOnly(b: Builder): (r: Option<Scope>)
    ensures b.prefix == "" <==> r.None?
    ensures r.Some? ==>
              && r.value.prefix == NormalizeName.ToUnderscoredName("", b.prefix)
              && r.value.id == ScopeId(r.value.prefix, b.tags)
              && r.value.tags == b.tags && r.value.separator == b.separator
              && |r.value.prefix| > 0
  {
    if b.prefix == "" then None
    else
      var normed := NormalizeName.ToUnderscoredName("", b.prefix);
      NormalizeName.GoKeeps("", b.prefix, 0);
      Some(Scope(normed, ScopeId(normed, b.tags), b.separator, b.tags))
  }

  /** The scope instance: the three default scopes and the registry of built scopes by id. */
  datatype Instance = Instance(root: Scope, sys: Scope, flag: Scope, registry: map<string, Scope>)

  predicate IsDefaultId(inst: Instance, id: string)
  {
    id == inst.root.id || id == inst.flag.id || id == inst.sys.id
  }

  /** Every scope is registered under its own id, and no default id is registered. */
  predicate Valid(inst: Instance)
  {
    forall id :: id in inst.registry ==> inst.registry[id].id == id && !IsDefaultId(inst, id)
  }

  /**
   * `get_scope(id)`: the root, flag and sys scopes are matched first, in
   * that order, then the registry; None when the id is unknown.
   */
  function GetScopeById(inst: Instance, id: string): (r: Option<Scope>)
    ensures r.Some? <==> IsDefaultId(inst, id) || id in inst.registry
    ensures Valid(inst) && r.Some? ==> r.value.id == id
    ensures !IsDefaultId(inst, id) && id in inst.registry ==> r == Some(inst.registry[id])
    ensures id == inst.root.id ==> r == Some(inst.root)
  {
    if id == inst.root.id then Some(inst.root)
    else if id == inst.flag.id then Some(inst.flag)
    else if id == inst.sys.id then Some(inst.sys)
    else if id in inst.registry then Some(inst.registry[id])
    else None
  }

  /** `get_scope(prefix, tags)`: the lookup by the id the prefix and tags make. */
  function GetScope(inst: Instance, prefix: string, tags: Tags): Option<Scope>
  {
    GetScopeById(inst, ScopeId(prefix, tags))
  }

  /** `has_scope`: whether `get_scope` finds the id. */
  function HasScope(inst: Instance, id: string): (b: bool)
    ensures b <==> GetScopeById(inst, id).Some?
  {
    id == inst.root.id || id == inst.flag.id || id == inst.sys.id || id in inst.registry
  }

  /** `add_scope`: the first scope registered under an id is kept and returned. */
  function AddScope(inst: Instance, s: Scope): (res: (Instance, Scope))
    ensures res.0.root == inst.root && res.0.sys == inst.sys && res.0.flag == inst.flag
    ensures s.id in inst.registry ==> res == (inst, inst.registry[s.id])
    ensures s.id !in inst.registry ==> res.1 == s && res.0.registry == inst.registry[s.id := s]
    ensures s.id in res.0.registry && res.0.registry[s.id] == res.1
  {
    if s.id in inst.registry then (inst, inst.registry[s.id])
    else (inst.(registry := inst.registry[s.id := s]), s)
  }

  /** `scope_size`: the registered scopes, plus the three defaults unless excluded. */
  function ScopeSize(inst: Instance, excludeDefault: bool): nat
  {
    |inst.registry| + if excludeDefault then 0 else 3
  }

  function ScopesOf(registry: map<string, Scope>, ids: seq<string>): (r: seq<Scope>)
    requires forall i :: 0 <= i < |ids| ==> ids[i] in registry
    ensures |r| == |ids| && forall i :: 0 <= i < |ids| ==> r[i] == registry[ids[i]]
  {
    if |ids| == 0 then [] else [registry[ids[0]]] + ScopesOf(registry, ids[1..])
  }

  /**
   * `list_scopes`: every registered scope once, then root, sys and flag
   * unless the defaults are excluded. The registry's order is unspecified;
   * here it is ascending id.
   */
  function ListScopes(inst: Instance, excludeDefault: bool): (r: seq<Scope>)
    ensures |r| == ScopeSize(inst, excludeDefault)
    ensures forall id :: id in inst.registry ==> inst.registry[id] in r
    ensures !excludeDefault ==> r[|r| - 3..] == [inst.root, inst.sys, inst.flag]
  {
    var ids := SortedKeys(inst.registry.Keys);
    var listed := ScopesOf(inst.registry, ids);
    assert forall id :: id in inst.registry ==> exists i :: 0 <= i < |ids| && ids[i] == id;
    listed + if excludeDefault then [] else [inst.root, inst.sys, inst.flag]
  }

  /**
   * `build`: no scope for an empty prefix; otherwise the scope already known
   * under the id (a default one or a registered one), else a new scope,
   * which is registered.
   */
  function Build(inst: Instance, b: Builder): (res: (Instance, Option<Scope>))
    requires Valid(inst)
    ensures Valid(res.0)
    ensures res.0.root == inst.root && res.0.sys == inst.sys && res.0.flag == inst.flag
    ensures b.prefix == "" ==> res == (inst, None)
    ensures b.prefix != "" ==> var id := BuildOnly(b).value.id;
      && res.1 == GetScopeById(res.0, id) && res.1.Some?
      && (GetScopeById(inst, id).Some? ==> res == (inst, GetScopeById(inst, id)))
      && (GetScopeById(inst, id).None? ==> res.1 == BuildOnly(b) && res.0.registry == inst.registry[id := res.1.value])
  {
    match BuildOnly(b)
    case None => (inst, None)
    case Some(built) =>
      match GetScopeById(inst, built.id)
      case Some(found) => (inst, Some(found))
      case None =>
        var (inst', s) := AddScope(inst, built);
        (inst', Some(s))
  }

  /** Building the same builder again finds the scope built the first time. */
  lemma BuildIdempotent(inst: Instance, b: Builder)
    requires Valid(inst)
    ensures Build(Build(inst, b).0, b) == (Build(inst, b).0, Build(inst, b).1)
  {
  }

  /** After a build, looking the prefix and tags up finds the built scope. */
  lemma BuildThenGet(inst: Instance, b: Builder)
    requires Valid(inst) && b.prefix != ""
    ensures var (inst', s) := Build(inst, b);
      GetScope(inst', NormalizeName.ToUnderscoredName("", b.prefix), b.tags) == s
  {
  }

  /** A build registers one more scope exactly when its id was unknown. */
  lemma BuildSize(inst: Instance, b: Builder, excludeDefault: bool)
    requires Valid(inst) && b.prefix != ""
    ensures var id := BuildOnly(b).value.id;
      ScopeSize(Build(inst, b).0, excludeDefault) == ScopeSize(inst, excludeDefault) + if HasScope(inst, id) then 0 else 1
  {
  }

  /** `sub_cope_impl`: a scope with the given prefix and the merged tags, built or only constructed. */
  function SubScopeImpl(inst: Instance, s: Scope, prefix: string, tags: Tags, addToInstance: bool): (res: (Instance, Option<Scope>))
    requires Valid(inst)
    ensures Valid(res.0)
    ensures !addToInstance ==> res.0 == inst
    ensures prefix != "" ==> res.1.Some? && res.1.value.id == ScopeId(NormalizeName.ToUnderscoredName("", prefix), Merge(s.tags, tags))
  {
    var b := Builder(prefix, s.separator, Merge(s.tags, tags));
    if addToInstance then Build(inst, b) else (inst, BuildOnly(b))
  }

  /** `tagged`: the same prefix with more tags. */
  function Tagged(inst: Instance, s: Scope, tags: Tags): (Instance, Option<Scope>)
    requires Valid(inst)
  {
    SubScopeImpl(inst, s, s.prefix, tags, true)
  }

  /** `sub_scope`: the prefix becomes the fully qualified name. */
  function SubScope(inst: Instance, s: Scope, name: string, tags: Tags): (Instance, Option<Scope>)
    requires Valid(inst)
  {
    SubScopeImpl(inst, s, FullyQualifiedName(s, name), tags, true)
  }

  /** Asking twice for the same sub-scope gives the same scope and registers nothing more. */
  lemma SubScopeTwice(inst: Instance, s: Scope, name: string, tags: Tags)
    requires Valid(inst)
    ensures var (inst', r) := SubScope(inst, s, name, tags);
      SubScope(inst', s, name, tags) == (inst', r)
  {
    BuildIdempotent(inst, Builder(FullyQualifiedName(s, name), s.separator, Merge(s.tags, tags)));
  }

  /** Asking twice for the same tagged scope gives the same scope. */
  lemma TaggedTwice(inst: Instance, s: Scope, tags: Tags)
    requires Valid(inst)
    ensures var (inst', r) := Tagged(inst, s, tags);
      Tagged(inst', s, tags) == (inst', r)
  {
    BuildIdempotent(inst, Builder(s.prefix, s.separator, Merge(s.tags, tags)));
  }

  /**
   * `init_once`: the root scope from the root flags, then the sys and flag
   * scopes as its sub-scopes, none of them registered.
   */
  function Init(rootName: string, separator: string, rootTags: string,
                sysName: string, sysTags: string, flagName: string, flagTags: string): (inst: Instance)
    requires rootName != ""
    ensures Valid(inst) && inst.registry == map[]
    ensures inst.root == BuildOnly(Builder(rootName, separator, ParseTags(rootTags))).value
  {
    var root := BuildOnly(Builder(rootName, separator, ParseTags(rootTags))).value;
    var sys := BuildOnly(Builder(FullyQualifiedName(root, sysName), root.separator, Merge(root.tags, ParseTags(sysTags)))).value;
    var flag := BuildOnly(Builder(FullyQualifiedName(root, flagName), root.separator, Merge(root.tags, ParseTags(flagTags)))).value;
    Instance(root, sys, flag, map[])
  }

  /** The instance the default flags produce. */
  function DefaultInstance(): Instance
  {
    Init("km", DEFAULT_SEPARATOR, "", "sys", "", "flag", "")
  }

  lemma EmptyTagText()
    ensures ParseTags("") == map[]
  {
    assert Split("", {';'}) == [""];
  }

  /**
   * With untagged flags and names that are already normalised, the default
   * scopes' ids are the root name and the root name joined with the sys and
   * flag names by the separator.
   */
  lemma InitIds(rootName: string, separator: string, sysName: string, flagName: string)
    requires rootName != ""
    requires NormalizeName.Normalized(rootName)
    requires NormalizeName.Normalized(rootName + separator + sysName)
    requires NormalizeName.Normalized(rootName + separator + flagName)
    ensures var inst := Init(rootName, separator, "", sysName, "", flagName, "");
      && inst.root.id == rootName
      && inst.sys.id == rootName + separator + sysName
      && inst.flag.id == rootName + separator + flagName
  {
    EmptyTagText();
    NormalizeName.Idempotent(rootName);
    NormalizeName.Idempotent(rootName + separator + sysName);
    NormalizeName.Idempotent(rootName + separator + flagName);
  }

  /** The default flags give the ids "km", "km_sys" and "km_flag". */
  lemma DefaultIds()
    ensures DefaultInstance().root.id == "km"
    ensures DefaultInstance().sys.id == "km_sys"
    ensures DefaultInstance().flag.id == "km_flag"
  {
    assert "km" + "_" + "sys" == "km_sys";
    assert "km" + "_" + "flag" == "km_flag";
    assert NormalizeName.Normalized("km_sys");
    assert NormalizeName.Normalized("km_flag");
    InitIds("km", "_", "sys", "flag");
  }

  /** Building scope "t" on the default instance gives four listed scopes, one without the defaults. */
  lemma FirstBuildListsFour()
    ensures var (inst, t) := Build(DefaultInstance(), Builder("t", DEFAULT_SEPARATOR, map[]));
      && t.Some? && t.value.id == "t"
      && |ListScopes(inst, false)| == 4 && |ListScopes(inst, true)| == 1
  {
    DefaultIds();
    var b := Builder("t", DEFAULT_SEPARATOR, map[]);
    assert NormalizeName.ToUnderscoredName("", "t") == "t";
    assert !HasScope(DefaultInstance(), "t");
    BuildSize(DefaultInstance(), b, false);
  }
}
