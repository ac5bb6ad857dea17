/** `flattenYamlMap`: walks a nested map depth first and records every
    non-mapping value under its dot-joined path. */
module Flattening {
  import opened Results
  import opened DottedKeys
  import opened ConfigTree

  /** `if (prefix.isEmpty()) key else "$prefix.$key"`. */
  function NewKey(prefix: string, key: string): string {
    if prefix == "" then key else prefix + "." + key
  }

  /** At the top a key stays as it is; below, it lies under the prefix and
      the key can be read back after the prefix and its dot. */
  lemma NewKeyParts(prefix: string, key: string)
    ensures prefix == "" ==> NewKey(prefix, key) == key
    ensures prefix != "" ==> Below(NewKey(prefix, key), prefix) && NewKey(prefix, key)[|prefix| + 1..] == key
  {
    var r := NewKey(prefix, key);
    if prefix != "" {
      assert r[..|prefix| + 1] == prefix + "." && r[|prefix| + 1..] == key;
    }
  }

  /** `k` lies below `prefix`: it starts with `prefix` and a dot. */
  predicate Below(k: string, prefix: string) {
    |prefix| < |k| && k[..|prefix| + 1] == prefix + "."
  }

  /** What the loop iteration for entry `i - 1` adds to `result`: a
      mapping value contributes its own flattening under the new key
      (`putAll`), any other value is stored under the new key. */
  function EntryFlat(es: Entries, i: nat, prefix: string): (r: map<string, string>)
    requires 1 <= i <= |es|
    ensures prefix != "" ==> forall k :: k in r ==> Below(k, prefix)
    decreases Mapping(es), i, 0
  {
    var newKey := NewKey(prefix, es[i - 1].0);
    match es[i - 1].1
    case Leaf(v) => map[newKey := v]
    case Mapping(ch) =>
      var r := FlattenFirst(ch, |ch|, newKey);
      assert prefix != "" ==> forall k :: k in r ==> Below(k, prefix) by {
        if prefix != "" {
          forall k | k in r ensures Below(k, prefix) {
            assert Below(k, newKey);
            assert k[..|prefix| + 1] == k[..|newKey| + 1][..|prefix| + 1];
          }
        }
      }
      r
  }

  /** The `result` map of `flattenYamlMap(es, prefix)` after the loop has
      visited the first `i` entries; a later entry overwrites an equal
      key. */
  function FlattenFirst(es: Entries, i: nat, prefix: string): (r: map<string, string>)
    requires i <= |es|
    ensures prefix != "" ==> forall k :: k in r ==> Below(k, prefix)
    decreases Mapping(es), i, 1
  {
    if i == 0 then map[] else FlattenFirst(es, i - 1, prefix) + EntryFlat(es, i, prefix)
  }

  /** `flattenYamlMap(es, prefix)`, for every tree: keys may contain dots
      and different paths may give the same key. A key is produced exactly
      when some path of entries ends at a scalar recorded under it. Its value
      is the scalar on the last such path in traversal order. */
  function FlattenFrom(es: Entries, prefix: string): (r: map<string, string>)
    ensures forall k :: k in r <==> exists p :: Reaches(es, |es|, prefix, p, k)
    ensures forall k :: k in r ==>
      exists p :: LastReach(es, |es|, prefix, p, k) && LeafEntry(es, p, prefix).value.1 == r[k]
  {
    var r := FlattenFirst(es, |es|, prefix);
    assert forall k :: (k in r <==> exists p :: Reaches(es, |es|, prefix, p, k)) &&
                      (k in r ==> exists p :: LastReach(es, |es|, prefix, p, k) && LeafEntry(es, p, prefix).value.1 == r[k]) by {
      forall k
        ensures (k in r <==> exists p :: Reaches(es, |es|, prefix, p, k)) &&
          (k in r ==> exists p :: LastReach(es, |es|, prefix, p, k) && LeafEntry(es, p, prefix).value.1 == r[k])
      {
        FlattenFirstPaths(es, |es|, prefix, k);
      }
    }
    r
  }

  /** `flattenYamlMap(yamlMap)` with the default empty prefix: the keys are
      those of the scalars reached from the root, and a top-level scalar is
      recorded under its own name. */
  function Flatten(es: Entries): (r: map<string, string>)
    ensures forall k :: k in r <==> exists p :: Reaches(es, |es|, "", p, k)
    ensures forall j :: 0 <= j < |es| && es[j].1.Leaf? ==> es[j].0 in r
  {
    var r := FlattenFrom(es, "");
    assert forall j :: 0 <= j < |es| && es[j].1.Leaf? ==> es[j].0 in r by {
      forall j | 0 <= j < |es| && es[j].1.Leaf? ensures es[j].0 in r {
        var p: seq<nat> := [j];
        assert Reaches(es, |es|, "", p, es[j].0);
      }
    }
    r
  }

  /** The loop of `flattenYamlMap` itself: `result` starts empty, a mapping
      value adds its recursive flattening under the new key (`putAll`),
      any other value is stored under the new key. The result is the fold
      over all entries, which is `FlattenFrom(es, prefix)`. */
  method FlattenYamlMap(es: Entries, prefix: string) returns (result: map<string, string>)
    ensures result == FlattenFirst(es, |es|, prefix)
    decreases Mapping(es)
  {
    result := map[];
    var i := 0;
    while i < |es|
      invariant 0 <= i <= |es|
      invariant result == FlattenFirst(es, i, prefix)
      decreases |es| - i
    {
      var key := es[i].0;
      var newKey := NewKey(prefix, key);
      match es[i].1 {
        case Mapping(ch) =>
          var sub := FlattenYamlMap(ch, newKey);
          result := result + sub;
        case Leaf(v) =>
          result := result[newKey := v];
          assert result == FlattenFirst(es, i, prefix) + map[newKey := v];
      }
      i := i + 1;
    }
  }

  /** A key is produced exactly when some entry contributes it, and its
      value comes from the last entry that does: a later entry overwrites
      what an earlier one stored under the same key. */
  lemma {:induction false} LastContributionWins(es: Entries, n: nat, i: nat, prefix: string, k: string)
    requires 1 <= i <= n <= |es| && k in EntryFlat(es, i, prefix)
    requires forall j :: i < j <= n ==> k !in EntryFlat(es, j, prefix)
    ensures k in FlattenFirst(es, n, prefix)
    ensures FlattenFirst(es, n, prefix)[k] == EntryFlat(es, i, prefix)[k]
  {
    if n > i {
      LastContributionWins(es, n - 1, i, prefix, k);
      assert k !in EntryFlat(es, n, prefix);
    }
  }

  /** Nothing but the entries' contributions ends up in the result. */
  lemma {:induction false} FlattenFirstKeys(es: Entries, n: nat, prefix: string, k: string)
    requires n <= |es|
    ensures k in FlattenFirst(es, n, prefix) <==> exists j :: 1 <= j <= n && k in EntryFlat(es, j, prefix)
  {
    if n > 0 {
      FlattenFirstKeys(es, n - 1, prefix, k);
      if k in EntryFlat(es, n, prefix) {
        assert 1 <= n <= n && k in EntryFlat(es, n, prefix);
      } else if exists j :: 1 <= j <= n && k in EntryFlat(es, j, prefix) {
        var j :| 1 <= j <= n && k in EntryFlat(es, j, prefix);
        assert j < n;
      }
    }
  }

  // ---------------------------------------------------------------------
  // Every tree: the flattening as the set of paths to scalars

  /** The key and the value recorded for the scalar reached from `es` by
      following the entry positions `p`, each step extending the key with
      `NewKey` as the recursion does; `None` when `p` does not end at a
      scalar. */
  function LeafEntry(es: Entries, p: seq<nat>, prefix: string): (r: Option<(string, string)>)
    ensures r.Some? ==> |p| >= 1 && p[0] < |es|
    decreases |p|
  {
    if p == [] || p[0] >= |es| then None
    else
      var newKey := NewKey(prefix, es[p[0]].0);
      match es[p[0]].1
      case Leaf(v) => if |p| == 1 then Some((newKey, v)) else None
      case Mapping(ch) => if |p| == 1 then None else LeafEntry(ch, p[1..], newKey)
  }

  /** `p` comes before `q` in the depth-first order of the traversal. */
  predicate Before(p: seq<nat>, q: seq<nat>)
    decreases |p|
  {
    |p| >= 1 && |q| >= 1 && (p[0] < q[0] || (p[0] == q[0] && Before(p[1..], q[1..])))
  }

  /** Path `p` goes through one of the first `n` entries and ends at a
      scalar recorded under `k`. */
  predicate Reaches(es: Entries, n: nat, prefix: string, p: seq<nat>, k: string) {
    var e := LeafEntry(es, p, prefix);
    e.Some? && p[0] < n && e.value.0 == k
  }

  /** ... and no other such path comes later in the traversal. */
  ghost predicate LastReach(es: Entries, n: nat, prefix: string, p: seq<nat>, k: string) {
    Reaches(es, n, prefix, p, k) && forall q :: Reaches(es, n, prefix, q, k) ==> !Before(p, q)
  }

  /** After the first `n` entries, a key is recorded exactly when a path
      through them reaches a scalar under it, and it holds the scalar of the
      last such path. */
  lemma {:induction false} FlattenFirstPaths(es: Entries, n: nat, prefix: string, k: string)
    requires n <= |es|
    ensures k in FlattenFirst(es, n, prefix) <==> exists p :: Reaches(es, n, prefix, p, k)
    ensures k in FlattenFirst(es, n, prefix) ==>
      exists p :: LastReach(es, n, prefix, p, k) && LeafEntry(es, p, prefix).value.1 == FlattenFirst(es, n, prefix)[k]
    decreases Mapping(es), n, 2
  {
    if n > 0 {
      FlattenFirstPaths(es, n - 1, prefix, k);
      EntryFlatPaths(es, n, prefix, k);
      var r := FlattenFirst(es, n, prefix);
      if k in EntryFlat(es, n, prefix) {
        var p :| Reaches(es, n, prefix, p, k) && p[0] == n - 1 &&
          LeafEntry(es, p, prefix).value.1 == EntryFlat(es, n, prefix)[k] &&
          forall q :: Reaches(es, n, prefix, q, k) && q[0] == n - 1 ==> !Before(p, q);
        forall q | Reaches(es, n, prefix, q, k) ensures !Before(p, q) {
          if q[0] == n - 1 {
            assert Reaches(es, n, prefix, q, k) && q[0] == n - 1;
          }
        }
        assert LastReach(es, n, prefix, p, k);
      } else {
        forall q | Reaches(es, n, prefix, q, k) ensures Reaches(es, n - 1, prefix, q, k) {
          assert q[0] != n - 1;
        }
        if k in r {
          var p :| LastReach(es, n - 1, prefix, p, k) && LeafEntry(es, p, prefix).value.1 == r[k];
          assert LastReach(es, n, prefix, p, k);
        }
        if exists p :: Reaches(es, n, prefix, p, k) {
          var p :| Reaches(es, n, prefix, p, k);
          assert Reaches(es, n - 1, prefix, p, k);
        }
      }
    }
  }

  /** The paths through entry `i - 1` give exactly what that entry
      contributes, with the value of the last of them. */
  lemma {:induction false} EntryFlatPaths(es: Entries, i: nat, prefix: string, k: string)
    requires 1 <= i <= |es|
    ensures k in EntryFlat(es, i, prefix) <==> exists p :: Reaches(es, i, prefix, p, k) && p[0] == i - 1
    ensures k in EntryFlat(es, i, prefix) ==>
      exists p :: Reaches(es, i, prefix, p, k) && p[0] == i - 1 &&
        LeafEntry(es, p, prefix).value.1 == EntryFlat(es, i, prefix)[k] &&
        forall q :: Reaches(es, i, prefix, q, k) && q[0] == i - 1 ==> !Before(p, q)
    decreases Mapping(es), i, 1
  {
    var newKey := NewKey(prefix, es[i - 1].0);
    match es[i - 1].1 {
      case Leaf(v) =>
        var p: seq<nat> := [i - 1];
        assert LeafEntry(es, p, prefix) == Some((newKey, v));
        forall q | Reaches(es, i, prefix, q, k) && q[0] == i - 1 ensures q == p && !Before(p, q) {
          assert |q| == 1;
        }
      case Mapping(ch) =>
        MappingEntryPaths(es, i, prefix, k, ch);
    }
  }

  lemma {:induction false} MappingEntryPaths(es: Entries, i: nat, prefix: string, k: string, ch: Entries)
    requires 1 <= i <= |es| && es[i - 1].1 == Mapping(ch)
    ensures k in EntryFlat(es, i, prefix) <==> exists p :: Reaches(es, i, prefix, p, k) && p[0] == i - 1
    ensures k in EntryFlat(es, i, prefix) ==>
      exists p :: Reaches(es, i, prefix, p, k) && p[0] == i - 1 &&
        LeafEntry(es, p, prefix).value.1 == EntryFlat(es, i, prefix)[k] &&
        forall q :: Reaches(es, i, prefix, q, k) && q[0] == i - 1 ==> !Before(p, q)
    decreases Mapping(es), i, 0
  {
    var newKey := NewKey(prefix, es[i - 1].0);
    var sub := FlattenFirst(ch, |ch|, newKey);
    assert EntryFlat(es, i, prefix) == sub;
    FlattenFirstPaths(ch, |ch|, newKey, k);
    forall q | Reaches(es, i, prefix, q, k) && q[0] == i - 1 ensures Reaches(ch, |ch|, newKey, q[1..], k) {
      OutOfMapping(es, i, prefix, ch, q);
    }
    if k in sub {
      var c :| LastReach(ch, |ch|, newKey, c, k) && LeafEntry(ch, c, newKey).value.1 == sub[k];
      var p := [i - 1] + c;
      IntoMapping(es, i, prefix, ch, c);
      assert Reaches(es, i, prefix, p, k) && p[0] == i - 1;
      forall q | Reaches(es, i, prefix, q, k) && q[0] == i - 1 ensures !Before(p, q) {
        BeforeCons(i - 1, c, q);
      }
    }
  }

  /** Two different paths to scalars are ordered one way or the other. */
  lemma {:induction false} BeforeTotal(es: Entries, p: seq<nat>, q: seq<nat>, prefix: string)
    requires LeafEntry(es, p, prefix).Some? && LeafEntry(es, q, prefix).Some?
    ensures p == q || Before(p, q) || Before(q, p)
    decreases |p|
  {
    if p[0] == q[0] {
      if |p| == 1 || |q| == 1 {
        assert |p| == 1 && |q| == 1;
        assert p == [p[0]] && q == [q[0]];
      } else {
        var ch := es[p[0]].1.entries;
        var newKey := NewKey(prefix, es[p[0]].0);
        assert LeafEntry(ch, p[1..], newKey).Some? && LeafEntry(ch, q[1..], newKey).Some? by {
          assert es[p[0]].1.Mapping?;
        }
        BeforeTotal(ch, p[1..], q[1..], newKey);
        assert p[1..] == q[1..] ==> p == q by {
          assert p == [p[0]] + p[1..] && q == [q[0]] + q[1..];
        }
      }
    }
  }

  /** The last path reaching a key is unique, so the value the flattening
      records for the key is determined. */
  lemma LastReachUnique(es: Entries, n: nat, prefix: string, p: seq<nat>, q: seq<nat>, k: string)
    requires LastReach(es, n, prefix, p, k) && LastReach(es, n, prefix, q, k)
    ensures p == q
  {
    BeforeTotal(es, p, q, prefix);
  }

  /** A path into the mapping of entry `i - 1` is that entry's position
      followed by a path inside the mapping, under the entry's key. */
  lemma IntoMapping(es: Entries, i: nat, prefix: string, ch: Entries, c: seq<nat>)
    requires 1 <= i <= |es| && es[i - 1].1 == Mapping(ch)
    ensures LeafEntry(es, [i - 1] + c, prefix) == LeafEntry(ch, c, NewKey(prefix, es[i - 1].0))
  {
    assert ([i - 1] + c)[1..] == c;
  }

  lemma OutOfMapping(es: Entries, i: nat, prefix: string, ch: Entries, q: seq<nat>)
    requires 1 <= i <= |es| && es[i - 1].1 == Mapping(ch)
    requires LeafEntry(es, q, prefix).Some? && q[0] == i - 1
    ensures LeafEntry(es, q, prefix) == LeafEntry(ch, q[1..], NewKey(prefix, es[i - 1].0))
  {
  }

  /** Paths through the same entry are ordered by what follows. */
  lemma BeforeCons(j: nat, c: seq<nat>, q: seq<nat>)
    requires |q| >= 1 && q[0] == j
    ensures Before([j] + c, q) <==> Before(c, q[1..])
  {
    assert ([j] + c)[1..] == c;
  }

  // ---------------------------------------------------------------------
  // Which keys the flattening produces

  /** The flattening key of the path `path` from the root. */
  function PathKey(path: seq<string>): string {
    if path == [] then "" else Join(path)
  }

  /** No top-level entry with the empty name holds a mapping. Such an entry
      would be flattened with an empty prefix again, so its children would
      lose the leading empty segment. */
  predicate NoUnnamedMapping(es: Entries) {
    forall j :: 0 <= j < |es| && es[j].0 == "" ==> es[j].1.Leaf?
  }

  /** With unique keys, the entry at position `j` is the one found. */
  lemma GetAt(es: Entries, j: nat)
    requires KeysUnique(es) && j < |es|
    ensures IndexOf(es, es[j].0) == j
    ensures Get(es, es[j].0) == Some(es[j].1)
  {
    IndexOfPinned(es, es[j].0, j);
  }

  /** One step down the tree is one `NewKey` step on the prefix. */
  lemma NewKeyStep(path: seq<string>, key: string)
    requires path != [""]
    ensures NewKey(PathKey(path), key) == Join(path + [key])
  {
    if path != [] {
      JoinSnoc(path, key);
      if Join(path) == "" {
        JoinEmpty(path);
      }
    }
  }

  /** What a well-formed mapping guarantees about its entry `j`. */
  lemma WellFormedEntry(es: Entries, j: nat)
    requires WellFormed(Mapping(es)) && j < |es|
    ensures KeysUnique(es) && DotFree(es[j].0) && WellFormed(es[j].1)
  {
  }

  /** Every key of the flattening below `path` is the joined path of a
      scalar: its segments continue `path`, and the scalar reached by the
      rest of them holds the recorded value. */
  lemma {:induction false} FlattenSound(es: Entries, i: nat, path: seq<string>, k: string)
    requires i <= |es| && WellFormed(Mapping(es))
    requires AllDotFree(path) && path != [""]
    requires path == [] ==> NoUnnamedMapping(es)
    requires k in FlattenFirst(es, i, PathKey(path))
    ensures IsPrefix(path, Split(k))
    ensures LeafAt(Mapping(es), Split(k)[|path|..]) == Some(FlattenFirst(es, i, PathKey(path))[k])
    decreases Mapping(es), i, 1
  {
    if k !in EntryFlat(es, i, PathKey(path)) {
      FlattenSound(es, i - 1, path, k);
    } else if es[i - 1].1.Leaf? {
      ScalarEntrySound(es, i, path, k);
    } else {
      MappingEntrySound(es, i, path, k);
    }
  }

  lemma ScalarEntrySound(es: Entries, i: nat, path: seq<string>, k: string)
    requires 1 <= i <= |es| && WellFormed(Mapping(es)) && es[i - 1].1.Leaf?
    requires AllDotFree(path) && path != [""]
    requires k in EntryFlat(es, i, PathKey(path))
    ensures IsPrefix(path, Split(k))
    ensures LeafAt(Mapping(es), Split(k)[|path|..]) == Some(EntryFlat(es, i, PathKey(path))[k])
  {
    var key := es[i - 1].0;
    var down := path + [key];
    assert Split(k) == down by {
      WellFormedEntry(es, i - 1);
      assert AllDotFree(down);
      NewKeyStep(path, key);
      SplitJoin(down);
    }
    assert Split(k)[|path|..] == [key] + [];
    GetAt(es, i - 1);
    LookupCons(es, key, es[i - 1].1, []);
  }

  lemma {:induction false} MappingEntrySound(es: Entries, i: nat, path: seq<string>, k: string)
    requires 1 <= i <= |es| && WellFormed(Mapping(es)) && es[i - 1].1.Mapping?
    requires AllDotFree(path) && path != [""]
    requires path == [] ==> NoUnnamedMapping(es)
    requires k in EntryFlat(es, i, PathKey(path))
    ensures IsPrefix(path, Split(k))
    ensures LeafAt(Mapping(es), Split(k)[|path|..]) == Some(EntryFlat(es, i, PathKey(path))[k])
    decreases Mapping(es), i, 0
  {
    var key := es[i - 1].0;
    var child := es[i - 1].1;
    var ch := child.entries;
    var down := path + [key];
    WellFormedEntry(es, i - 1);
    assert AllDotFree(down) && down != [""];
    NewKeyStep(path, key);
    var sub := FlattenFirst(ch, |ch|, Join(down));
    assert EntryFlat(es, i, PathKey(path)) == sub;
    FlattenSound(ch, |ch|, down, k);
    var rest := Split(k)[|down|..];
    PrefixStep(Split(k), path, key);
    GetAt(es, i - 1);
    LookupCons(es, key, child, rest);
  }

  /** A path that continues `path + [key]` continues `path`, and its
      remainder after `path` starts with `key`. */
  lemma PrefixStep(s: seq<string>, path: seq<string>, key: string)
    requires IsPrefix(path + [key], s)
    ensures IsPrefix(path, s)
    ensures s[|path|..] == [key] + s[|path| + 1..]
  {
    assert s[..|path|] == s[..|path| + 1][..|path|];
    assert s[|path|] == s[..|path| + 1][|path|];
  }

  /** Every scalar reachable through one of the first `i` entries is
      recorded under its joined path. */
  lemma {:induction false} FlattenComplete(es: Entries, i: nat, path: seq<string>, q: seq<string>)
    requires i <= |es| && WellFormed(Mapping(es))
    requires AllDotFree(path) && path != [""]
    requires path == [] ==> NoUnnamedMapping(es)
    requires |q| >= 1 && AllDotFree(q)
    requires LeafAt(Mapping(es), q).Some? && 0 <= IndexOf(es, q[0]) < i
    ensures Join(path + q) in FlattenFirst(es, i, PathKey(path))
    decreases Mapping(es), i, 2
  {
    if IndexOf(es, q[0]) == i - 1 {
      EntryComplete(es, i, path, q);
    } else {
      FlattenComplete(es, i - 1, path, q);
    }
  }

  lemma {:induction false} EntryComplete(es: Entries, i: nat, path: seq<string>, q: seq<string>)
    requires 1 <= i <= |es| && WellFormed(Mapping(es))
    requires AllDotFree(path) && path != [""]
    requires path == [] ==> NoUnnamedMapping(es)
    requires |q| >= 1 && AllDotFree(q)
    requires LeafAt(Mapping(es), q).Some? && IndexOf(es, q[0]) == i - 1
    ensures Join(path + q) in EntryFlat(es, i, PathKey(path))
    decreases Mapping(es), i, 1
  {
    var key := es[i - 1].0;
    var child := es[i - 1].1;
    WellFormedEntry(es, i - 1);
    GetAt(es, i - 1);
    assert q == [key] + q[1..];
    LookupCons(es, key, child, q[1..]);
    if child.Leaf? {
      ScalarEntryComplete(es, i, path, q);
    } else {
      MappingEntryComplete(es, i, path, q);
    }
  }

  lemma ScalarEntryComplete(es: Entries, i: nat, path: seq<string>, q: seq<string>)
    requires 1 <= i <= |es| && WellFormed(Mapping(es)) && es[i - 1].1.Leaf?
    requires AllDotFree(path) && path != [""]
    requires |q| >= 1 && q[0] == es[i - 1].0 && LeafAt(es[i - 1].1, q[1..]).Some?
    ensures Join(path + q) in EntryFlat(es, i, PathKey(path))
  {
    var key := es[i - 1].0;
    NewKeyStep(path, key);
    assert q == [key];
  }

  lemma {:induction false} MappingEntryComplete(es: Entries, i: nat, path: seq<string>, q: seq<string>)
    requires 1 <= i <= |es| && WellFormed(Mapping(es)) && es[i - 1].1.Mapping?
    requires AllDotFree(path) && path != [""]
    requires path == [] ==> NoUnnamedMapping(es)
    requires |q| >= 1 && AllDotFree(q)
    requires q[0] == es[i - 1].0 && LeafAt(es[i - 1].1, q[1..]).Some?
    ensures Join(path + q) in EntryFlat(es, i, PathKey(path))
    decreases Mapping(es), i, 0
  {
    var key := es[i - 1].0;
    var ch := es[i - 1].1.entries;
    var down := path + [key];
    var sub := FlattenFirst(ch, |ch|, Join(down));
    assert EntryFlat(es, i, PathKey(path)) == sub by {
      NewKeyStep(path, key);
    }
    assert Join(down + q[1..]) in sub by {
      WellFormedEntry(es, i - 1);
      assert AllDotFree(down) && down != [""];
      assert AllDotFree(q[1..]);
      IndexOfFirst(ch, q[1..]);
      FlattenComplete(ch, |ch|, down, q[1..]);
    }
    assert down + q[1..] == path + q;
  }

  /** A path that reaches a scalar inside a mapping starts with one of its
      keys. */
  lemma IndexOfFirst(es: Entries, q: seq<string>)
    requires |q| >= 1 && LeafAt(Mapping(es), q).Some?
    ensures 0 <= IndexOf(es, q[0]) < |es|
  {
  }

  /** The flattening of a well-formed tree records exactly its scalars:
      `k` is a key of the result if and only if following the segments of
      `k` from the root ends at a scalar, and then the value is that
      scalar. */
  lemma FlattenLeaves(es: Entries, k: string)
    requires WellFormed(Mapping(es)) && NoUnnamedMapping(es)
    ensures k in Flatten(es) <==> LeafAt(Mapping(es), Split(k)).Some?
    ensures k in Flatten(es) ==> Flatten(es)[k] == LeafAt(Mapping(es), Split(k)).value
  {
    assert Flatten(es) == FlattenFirst(es, |es|, "");
    if k in FlattenFirst(es, |es|, "") {
      LeavesSound(es, k);
    }
    if LeafAt(Mapping(es), Split(k)).Some? {
      LeavesComplete(es, k);
    }
  }

  lemma LeavesSound(es: Entries, k: string)
    requires WellFormed(Mapping(es)) && NoUnnamedMapping(es)
    requires k in FlattenFirst(es, |es|, "")
    ensures LeafAt(Mapping(es), Split(k)) == Some(FlattenFirst(es, |es|, "")[k])
  {
    assert AllDotFree([]);
    FlattenSound(es, |es|, [], k);
    assert Split(k)[0..] == Split(k);
  }

  lemma LeavesComplete(es: Entries, k: string)
    requires WellFormed(Mapping(es)) && NoUnnamedMapping(es)
    requires LeafAt(Mapping(es), Split(k)).Some?
    ensures k in FlattenFirst(es, |es|, "")
  {
    assert AllDotFree([]);
    JoinSplit(k);
    assert [] + Split(k) == Split(k);
    FlattenComplete(es, |es|, [], Split(k));
  }

  // ---------------------------------------------------------------------
  // Examples

  /** Top-level keys stay as they are and deeper keys are joined with dots. */
  lemma NestedExample()
    ensures Flatten([("a", Mapping([("b", Mapping([("c", Leaf("1")), ("d", Leaf("2"))]))]))])
         == map["a.b.c" := "1", "a.b.d" := "2"]
  {
    var inner: Entries := [("c", Leaf("1")), ("d", Leaf("2"))];
    var mid: Entries := [("b", Mapping(inner))];
    assert NewKey("a.b", "c") == "a.b.c" && NewKey("a.b", "d") == "a.b.d";
    assert EntryFlat(inner, 1, "a.b") == map["a.b.c" := "1"];
    assert EntryFlat(inner, 2, "a.b") == map["a.b.d" := "2"];
    assert FlattenFirst(inner, 1, "a.b") == map["a.b.c" := "1"];
    assert FlattenFirst(inner, 2, "a.b") == map["a.b.c" := "1", "a.b.d" := "2"];
    assert NewKey("a", "b") == "a.b";
    assert FlattenFirst(mid, 1, "a") == map["a.b.c" := "1", "a.b.d" := "2"];
  }

  /** An empty mapping contributes no key at all, and neither does an empty
      input. */
  lemma EmptyMappingExample()
    ensures Flatten([]) == map[]
    ensures Flatten([("a", Mapping([])), ("b", Leaf("1"))]) == map["b" := "1"]
  {
    var es: Entries := [("a", Mapping([])), ("b", Leaf("1"))];
    assert EntryFlat(es, 1, "") == map[];
    assert EntryFlat(es, 2, "") == map["b" := "1"];
  }

  /** A dotted key inside a mapping is kept whole and prefixed. */
  lemma DottedKeyExample()
    ensures Flatten([("lvl", Mapping([("org.x", Leaf("D"))]))]) == map["lvl.org.x" := "D"]
  {
    var inner: Entries := [("org.x", Leaf("D"))];
    assert NewKey("lvl", "org.x") == "lvl.org.x";
    assert EntryFlat(inner, 1, "lvl") == map["lvl.org.x" := "D"];
    assert FlattenFirst(inner, 1, "lvl") == map["lvl.org.x" := "D"];
  }

  /** A literal key `"a.b"` and the nested path `a -> b` flatten to the same
      key; whichever the traversal visits later wins. */
  lemma CollisionExample()
    ensures Flatten([("a.b", Leaf("1")), ("a", Mapping([("b", Leaf("2"))]))]) == map["a.b" := "2"]
    ensures Flatten([("a", Mapping([("b", Leaf("2"))])), ("a.b", Leaf("1"))]) == map["a.b" := "1"]
  {
    var nested: Entries := [("b", Leaf("2"))];
    assert NewKey("a", "b") == "a.b";
    assert EntryFlat(nested, 1, "a") == map["a.b" := "2"];
    assert FlattenFirst(nested, 1, "a") == map["a.b" := "2"];
    var first: Entries := [("a.b", Leaf("1")), ("a", Mapping(nested))];
    assert EntryFlat(first, 1, "") == map["a.b" := "1"];
    assert EntryFlat(first, 2, "") == map["a.b" := "2"];
    var second: Entries := [("a", Mapping(nested)), ("a.b", Leaf("1"))];
    assert EntryFlat(second, 1, "") == map["a.b" := "2"];
    assert EntryFlat(second, 2, "") == map["a.b" := "1"];
  }
}
