/** `propertiesToHierarchicalMap`: turns flat `key=value` properties into a
    nested tree, one entry at a time, walking (and creating) one mapping per
    key segment and assigning the value at the last segment. */
module Nest {
  import opened Results
  import opened DottedKeys
  import opened ConfigTree

  /** The cast `current[part] as MutableMap` fails: a proper prefix `at` of
      the segments of `key` is already bound to a scalar. */
  datatype NestError = ScalarInPath(key: string, at: seq<string>)

  /** Reference behaviour of one entry: nest the value `v` under the path
      `segs` in the mapping `es`. Missing steps become new mappings, an
      existing mapping is descended into, a scalar on the way is an error
      that names the offending path, and the last segment is overwritten
      whatever it held. */
  function Insert(es: Entries, segs: seq<string>, v: string): (r: Result<Entries, seq<string>>)
    requires |segs| >= 1
    ensures r.Err? ==> IsProperPrefix(r.error, segs) && |r.error| >= 1
    ensures r.Err? ==> LeafAt(Mapping(es), r.error).Some?
    decreases |segs|
  {
    if |segs| == 1 then Ok(Put(es, segs[0], Leaf(v)))
    else
      match Get(es, segs[0])
      case Some(Leaf(_)) =>
        assert [segs[0]][1..] == [];
        assert Lookup(Mapping(es), [segs[0]]) == Lookup(Get(es, segs[0]).value, []);
        Err([segs[0]])
      case Some(Mapping(ch)) =>
        (match Insert(ch, segs[1..], v)
         case Err(p) => Err([segs[0]] + p)
         case Ok(ch') => Ok(Put(es, segs[0], Mapping(ch'))))
      case None =>
        (match Insert([], segs[1..], v)
         case Err(p) => Err([segs[0]] + p)
         case Ok(ch') => Ok(Put(es, segs[0], Mapping(ch'))))
  }

  /** Reference behaviour of the whole conversion: the entries nested in
      the order given, stopping at the first failing one. */
  function NestAll(props: seq<(string, string)>): (r: Result<Entries, NestError>)
    ensures r.Err? ==> exists i :: 0 <= i < |props| && props[i].0 == r.error.key
    ensures r.Err? ==> IsProperPrefix(r.error.at, Split(r.error.key)) && |r.error.at| >= 1
  {
    if props == [] then Ok([])
    else
      var last := props[|props| - 1];
      match NestAll(props[..|props| - 1])
      case Err(e) => Err(e)
      case Ok(t) =>
        match Insert(t, Split(last.0), last.1)
        case Err(p) => Err(ScalarInPath(last.0, p))
        case Ok(t') => Ok(t')
  }

  /** Assignment through the `current` reference: puts `node` at the last
      segment of `path` inside the mapping that the rest of `path` leads to
      (nothing changes when that is not a mapping). */
  function SetAt(es: Entries, path: seq<string>, node: Node): Entries
    requires |path| >= 1
    decreases |path|
  {
    if |path| == 1 then Put(es, path[0], node)
    else
      match Get(es, path[0])
      case Some(Mapping(ch)) => Put(es, path[0], Mapping(SetAt(ch, path[1..], node)))
      case _ => es
  }

  /** The model of `propertiesToHierarchicalMap`: the entries are nested
      one after the other into the root map `result`; the first cast that
      fails ends the conversion. */
  method NestProperties(props: seq<(string, string)>) returns (r: Result<Entries, NestError>)
    ensures r == NestAll(props)
  {
    var result: Entries := [];
    var n := 0;
    while n < |props|
      invariant 0 <= n <= |props|
      invariant NestAll(props[..n]) == Ok(result)
    {
      var key := props[n].0;
      var parts := Split(key);
      assert props[..n + 1][..n] == props[..n];
      var step := NestEntry(result, parts, props[n].1);
      if step.Err? {
        NestAllErrSticks(props, n + 1);
        return Err(ScalarInPath(key, step.error));
      }
      result := step.value;
      n := n + 1;
    }
    assert props[..n] == props;
    r := Ok(result);
  }

  /** The body of the loop over the properties, for one entry split into
      `parts`: the Kotlin `current` reference into `result` is kept as the
      path `parts[..i]` together with a copy of the mapping found there;
      writes through it are `SetAt` on that path. */
  method NestEntry(result: Entries, parts: seq<string>, value: string) returns (r: Result<Entries, seq<string>>)
    requires |parts| >= 1
    ensures r == Insert(result, parts, value)
  {
    var root := result;
    var current := root;
    var i := 0;
    while i < |parts| - 1
      invariant 0 <= i <= |parts| - 1
      invariant Lookup(Mapping(root), parts[..i]) == Some(Mapping(current))
      invariant Insert(root, parts, value) == Insert(result, parts, value)
    {
      var failed;
      root, current, failed := Descend(root, parts, value, i, current);
      if failed {
        return Err(parts[..i + 1]);
      }
      i := i + 1;
    }
    InsertAlongMappings(root, parts, value, current);
    r := Ok(SetAt(root, parts, Leaf(value)));
  }

  /** One pass of the walk for `part == parts[i]`: create the missing
      mapping, then cast the value found to a mapping and move `current` to
      it; `failed` is the cast failing on a scalar. */
  method Descend(root: Entries, parts: seq<string>, value: string, i: nat, current: Entries)
    returns (root': Entries, current': Entries, failed: bool)
    requires i < |parts| - 1
    requires Lookup(Mapping(root), parts[..i]) == Some(Mapping(current))
    ensures failed ==> Insert(root, parts, value) == Err(parts[..i + 1])
    ensures !failed ==> Lookup(Mapping(root'), parts[..i + 1]) == Some(Mapping(current'))
    ensures !failed ==> Insert(root', parts, value) == Insert(root, parts, value)
  {
    root', current' := root, current;
    var part := parts[i];
    if Get(current', part).None? {
      root', current' := CreateChild(root', parts, value, i, current');
    }
    var child := Get(current', part).value;
    if !child.Mapping? {
      InsertFailsAt(root', parts, value, i, current');
      return root', current', true;
    }
    DescendStep(root', parts, i, current');
    current' := child.entries;
    failed := false;
  }

  /** `current[part] = mutableMapOf()` for the missing segment
      `part == parts[i]`: the new empty mapping appears in the tree under
      `parts[..i + 1]`, and what the entry as a whole produces is
      unchanged. */
  method CreateChild(root: Entries, parts: seq<string>, value: string, i: nat, current: Entries)
    returns (root': Entries, current': Entries)
    requires i < |parts| - 1
    requires Lookup(Mapping(root), parts[..i]) == Some(Mapping(current))
    requires Get(current, parts[i]).None?
    ensures Lookup(Mapping(root'), parts[..i]) == Some(Mapping(current'))
    ensures Get(current', parts[i]) == Some(Mapping([]))
    ensures Insert(root', parts, value) == Insert(root, parts, value)
  {
    CreateStep(root, parts, value, i, current);
    root' := SetAt(root, parts[..i + 1], Mapping([]));
    current' := Put(current, parts[i], Mapping([]));
  }

  // ---------------------------------------------------------------------
  // Lemmas that tie the imperative walk to the reference behaviour

  /** `Put` twice at the same key keeps only the second node. */
  lemma PutPut(es: Entries, key: string, a: Node, b: Node)
    ensures Put(Put(es, key, a), key, b) == Put(es, key, b)
  {
    var i := IndexOf(es, key);
    if i >= 0 {
      IndexOfPinned(Put(es, key, a), key, i);
    } else {
      IndexOfPinned(Put(es, key, a), key, |es|);
    }
  }

  /** One step further along a path of mappings. */
  lemma {:induction false} LookupStep(n: Node, path: seq<string>, key: string, m: Entries)
    requires Lookup(n, path) == Some(Mapping(m))
    ensures Lookup(n, path + [key]) == Get(m, key)
    decreases |path|
  {
    if path == [] {
      assert [key][1..] == [];
    } else {
      var child := Get(n.entries, path[0]).value;
      assert (path + [key])[1..] == path[1..] + [key];
      LookupStep(child, path[1..], key, m);
    }
  }

  /** Following the reference one segment further. */
  lemma DescendStep(es: Entries, segs: seq<string>, i: nat, m: Entries)
    requires i < |segs|
    requires Lookup(Mapping(es), segs[..i]) == Some(Mapping(m))
    ensures Lookup(Mapping(es), segs[..i + 1]) == Get(m, segs[i])
  {
    LookupStep(Mapping(es), segs[..i], segs[i], m);
    assert segs[..i] + [segs[i]] == segs[..i + 1];
  }

  /** Assigning through the reference changes the mapping it points to
      exactly as `Put` on that mapping would. */
  lemma {:induction false} SetAtParent(es: Entries, path: seq<string>, node: Node, m: Entries)
    requires |path| >= 1
    requires Lookup(Mapping(es), path[..|path| - 1]) == Some(Mapping(m))
    ensures Lookup(Mapping(SetAt(es, path, node)), path[..|path| - 1])
         == Some(Mapping(Put(m, path[|path| - 1], node)))
    decreases |path|
  {
    if |path| > 1 {
      var ch := Get(es, path[0]).value.entries;
      assert path[..|path| - 1][1..] == path[1..][..|path[1..]| - 1];
      SetAtParent(ch, path[1..], node, m);
    }
  }

  /** Creating the missing mapping on the way does not change what the
      entry as a whole produces. */
  lemma CreateStep(es: Entries, segs: seq<string>, v: string, i: nat, m: Entries)
    requires i < |segs| - 1
    requires Lookup(Mapping(es), segs[..i]) == Some(Mapping(m))
    requires Get(m, segs[i]).None?
    ensures Insert(SetAt(es, segs[..i + 1], Mapping([])), segs, v) == Insert(es, segs, v)
    ensures Lookup(Mapping(SetAt(es, segs[..i + 1], Mapping([]))), segs[..i])
         == Some(Mapping(Put(m, segs[i], Mapping([]))))
  {
    assert segs[..i + 1][..i] == segs[..i];
    SetAtParent(es, segs[..i + 1], Mapping([]), m);
    CreateKeepsInsert(es, segs, v, i, m);
  }

  lemma {:induction false} CreateKeepsInsert(es: Entries, segs: seq<string>, v: string, i: nat, m: Entries)
    requires i < |segs| - 1
    requires Lookup(Mapping(es), segs[..i]) == Some(Mapping(m))
    requires Get(m, segs[i]).None?
    ensures Insert(SetAt(es, segs[..i + 1], Mapping([])), segs, v) == Insert(es, segs, v)
    decreases i
  {
    var s0 := segs[0];
    if i == 0 {
      assert segs[..1] == [s0];
      match Insert([], segs[1..], v)
      case Err(p) =>
      case Ok(c) => PutPut(es, s0, Mapping([]), Mapping(c));
    } else {
      var ch := Get(es, s0).value.entries;
      assert segs[..i][1..] == segs[1..][..i - 1];
      assert segs[..i + 1][1..] == segs[1..][..i];
      CreateKeepsInsert(ch, segs[1..], v, i - 1, m);
      var ch' := SetAt(ch, segs[1..][..i], Mapping([]));
      assert SetAt(es, segs[..i + 1], Mapping([])) == Put(es, s0, Mapping(ch'));
      match Insert(ch, segs[1..], v)
      case Err(p) =>
      case Ok(c) => PutPut(es, s0, Mapping(ch'), Mapping(c));
    }
  }

  /** Meeting a scalar after `i` mapping steps is exactly the failure the
      reference behaviour reports, at path `segs[..i + 1]`. */
  lemma {:induction false} InsertFailsAt(es: Entries, segs: seq<string>, v: string, i: nat, m: Entries)
    requires i < |segs| - 1
    requires Lookup(Mapping(es), segs[..i]) == Some(Mapping(m))
    requires Get(m, segs[i]).Some? && Get(m, segs[i]).value.Leaf?
    ensures Insert(es, segs, v) == Err(segs[..i + 1])
    decreases i
  {
    if i > 0 {
      var ch := Get(es, segs[0]).value.entries;
      assert segs[..i][1..] == segs[1..][..i - 1];
      InsertFailsAt(ch, segs[1..], v, i - 1, m);
      assert [segs[0]] + segs[1..][..i] == segs[..i + 1];
    }
  }

  /** Once every step but the last is a mapping, the entry succeeds and
      amounts to one assignment at the end of the path. */
  lemma {:induction false} InsertAlongMappings(es: Entries, segs: seq<string>, v: string, m: Entries)
    requires |segs| >= 1
    requires Lookup(Mapping(es), segs[..|segs| - 1]) == Some(Mapping(m))
    ensures Insert(es, segs, v) == Ok(SetAt(es, segs, Leaf(v)))
    decreases |segs|
  {
    if |segs| > 1 {
      var ch := Get(es, segs[0]).value.entries;
      assert segs[..|segs| - 1][1..] == segs[1..][..|segs[1..]| - 1];
      InsertAlongMappings(ch, segs[1..], v, m);
    }
  }

  /** A failure stays a failure whatever entries follow. */
  lemma {:induction false} NestAllErrSticks(props: seq<(string, string)>, m: nat)
    requires m <= |props|
    requires NestAll(props[..m]).Err?
    ensures NestAll(props) == NestAll(props[..m])
    decreases |props| - m
  {
    if m < |props| {
      assert props[..m + 1][..m] == props[..m];
      NestAllErrSticks(props, m + 1);
    } else {
      assert props[..m] == props;
    }
  }

  // ---------------------------------------------------------------------
  // What nesting one entry does to the tree

  /** After nesting `v` under `segs`: the full path holds the scalar `v`;
      every proper prefix of it is a mapping (an existing mapping is
      reused, so nothing beside the path is lost); whatever used to hang
      below `segs` is gone, because the last assignment overwrites a whole
      submapping; and every path that branches off `segs` leads where it
      led before. */
  lemma {:induction false} InsertLookup(es: Entries, segs: seq<string>, v: string, t: Entries, p: seq<string>)
    requires |segs| >= 1 && Insert(es, segs, v) == Ok(t)
    ensures p == segs ==> Lookup(Mapping(t), p) == Some(Leaf(v))
    ensures IsProperPrefix(p, segs) ==> Lookup(Mapping(t), p).Some? && Lookup(Mapping(t), p).value.Mapping?
    ensures IsProperPrefix(segs, p) ==> Lookup(Mapping(t), p) == None
    ensures !IsPrefix(p, segs) && !IsPrefix(segs, p) ==> Lookup(Mapping(t), p) == Lookup(Mapping(es), p)
    decreases |segs|
  {
    if p != [] && p[0] == segs[0] {
      if |segs| == 1 {
        assert Get(t, segs[0]) == Some(Leaf(v));
        assert p == segs <==> p[1..] == [];
      } else {
        var sub := match Get(es, segs[0]) case Some(Mapping(ch)) => ch case _ => [];
        var sub' := Insert(sub, segs[1..], v).value;
        assert t == Put(es, segs[0], Mapping(sub'));
        InsertLookup(sub, segs[1..], v, sub', p[1..]);
        assert p == [segs[0]] + p[1..];
        LookupCons(t, segs[0], Mapping(sub'), p[1..]);
        PrefixCons(p, segs);
        if !IsPrefix(p, segs) && !IsPrefix(segs, p) {
          assert p[1..] != [];
        }
      }
    }
  }

  /** Nesting an entry fails exactly when one of the proper prefixes of its
      segments is already bound to a scalar (the cast at line 142). */
  lemma {:induction false} InsertFailsIff(es: Entries, segs: seq<string>, v: string)
    requires |segs| >= 1
    ensures Insert(es, segs, v).Err? <==>
      exists j :: 1 <= j < |segs| && LeafAt(Mapping(es), segs[..j]).Some?
    decreases |segs|
  {
    var r := Insert(es, segs, v);
    if r.Err? {
      var j := |r.error|;
      assert segs[..j] == r.error;
    } else {
      forall j | 1 <= j < |segs| ensures LeafAt(Mapping(es), segs[..j]).None? {
        NoScalarOnPath(es, segs, v, j);
      }
    }
  }

  lemma {:induction false} NoScalarOnPath(es: Entries, segs: seq<string>, v: string, j: nat)
    requires 1 <= j < |segs| && Insert(es, segs, v).Ok?
    ensures LeafAt(Mapping(es), segs[..j]).None?
    decreases |segs|
  {
    assert segs[..j][0] == segs[0];
    assert Lookup(Mapping(es), segs[..j]) == match Get(es, segs[0])
      case None => None
      case Some(c) => Lookup(c, segs[..j][1..]);
    match Get(es, segs[0])
    case None =>
    case Some(Leaf(_)) =>
    case Some(Mapping(ch)) =>
      if j > 1 {
        assert segs[..j][1..] == segs[1..][..j - 1];
        NoScalarOnPath(ch, segs[1..], v, j - 1);
      } else {
        assert segs[..j][1..] == [];
      }
  }

  // ---------------------------------------------------------------------
  // Worked examples

  /** The chain of single-entry mappings that a key nested into an empty
      map produces. */
  function Chain(segs: seq<string>, v: string): Node
    decreases |segs|
  {
    if segs == [] then Leaf(v) else Mapping([(segs[0], Chain(segs[1..], v))])
  }

  /** Nesting into an empty map never fails and builds one mapping per
      segment. */
  lemma {:induction false} InsertIntoEmpty(segs: seq<string>, v: string)
    requires |segs| >= 1
    ensures Insert([], segs, v) == Ok([(segs[0], Chain(segs[1..], v))])
    decreases |segs|
  {
    if |segs| > 1 {
      InsertIntoEmpty(segs[1..], v);
      assert segs[1..][1..] == segs[2..];
      assert Get([], segs[0]) == None;
      var below := [(segs[1], Chain(segs[2..], v))];
      assert Put([], segs[0], Mapping(below)) == [(segs[0], Mapping(below))];
    } else {
      assert Put([], segs[0], Leaf(v)) == [(segs[0], Leaf(v))];
    }
  }

  /** Nesting a single entry. */
  lemma NestAllOne(p: (string, string), t: Entries)
    requires Insert([], Split(p.0), p.1) == Ok(t)
    ensures NestAll([p]) == Ok(t)
  {
    assert [p][..0] == [];
  }

  /** Nesting one entry more. */
  lemma NestAllNext(props: seq<(string, string)>, p: (string, string), t: Entries, t': Entries)
    requires NestAll(props) == Ok(t) && Insert(t, Split(p.0), p.1) == Ok(t')
    ensures NestAll(props + [p]) == Ok(t')
  {
    assert (props + [p])[..|props|] == props;
  }

  /** Keys that share a prefix share one intermediate mapping. */
  lemma SharedPrefixExample()
    ensures NestAll([("a.b.c", "1"), ("a.b.d", "2")])
         == Ok([("a", Mapping([("b", Mapping([("c", Leaf("1")), ("d", Leaf("2"))]))]))])
  {
    var t1 := [("a", Mapping([("b", Mapping([("c", Leaf("1"))]))]))];
    var t2 := [("a", Mapping([("b", Mapping([("c", Leaf("1")), ("d", Leaf("2"))]))]))];
    assert NestAll([("a.b.c", "1")]) == Ok(t1) by {
      SharedPrefixFirstKey();
      NestAllOne(("a.b.c", "1"), t1);
    }
    assert Insert(t1, Split("a.b.d"), "2") == Ok(t2) by {
      SplitThree("a", "b", "d");
      assert "a" + "." + "b" + "." + "d" == "a.b.d";
      SharedPrefixSecondKey();
    }
    NestAllNext([("a.b.c", "1")], ("a.b.d", "2"), t1, t2);
    assert [("a.b.c", "1")] + [("a.b.d", "2")] == [("a.b.c", "1"), ("a.b.d", "2")];
  }

  lemma SharedPrefixFirstKey()
    ensures Insert([], Split("a.b.c"), "1") == Ok([("a", Mapping([("b", Mapping([("c", Leaf("1"))]))]))])
  {
    SplitThree("a", "b", "c");
    assert "a" + "." + "b" + "." + "c" == "a.b.c";
    InsertIntoEmpty(["a", "b", "c"], "1");
    assert ["a", "b", "c"][1..] == ["b", "c"] && ["b", "c"][1..] == ["c"];
  }

  lemma SharedPrefixSecondKey()
    ensures Insert([("a", Mapping([("b", Mapping([("c", Leaf("1"))]))]))], ["a", "b", "d"], "2")
         == Ok([("a", Mapping([("b", Mapping([("c", Leaf("1")), ("d", Leaf("2"))]))]))])
  {
    var c := [("c", Leaf("1"))];
    var cd := [("c", Leaf("1")), ("d", Leaf("2"))];
    assert IndexOf(c, "d") == -1;
    assert Put(c, "d", Leaf("2")) == cd;
    assert Insert(c, ["d"], "2") == Ok(cd);
    var bc := [("b", Mapping(c))];
    assert Insert(bc, ["b", "d"], "2") == Ok([("b", Mapping(cd))]) by {
      assert ["b", "d"][1..] == ["d"];
      assert IndexOf(bc, "b") == 0;
      assert Put(bc, "b", Mapping(cd)) == [("b", Mapping(cd))];
    }
    var abc := [("a", Mapping(bc))];
    assert ["a", "b", "d"][1..] == ["b", "d"];
    assert IndexOf(abc, "a") == 0;
    assert Put(abc, "a", Mapping([("b", Mapping(cd))])) == [("a", Mapping([("b", Mapping(cd))]))];
  }

  /** A scalar bound at a prefix makes the longer key fail. */
  lemma ScalarPrefixExample()
    ensures NestAll([("a", "x"), ("a.b", "y")]) == Err(ScalarInPath("a.b", ["a"]))
  {
    var props := [("a", "x"), ("a.b", "y")];
    SplitJoin(["a"]);
    SplitTwo("a", "b");
    assert Put([], "a", Leaf("x")) == [("a", Leaf("x"))];
    NestAllOne(("a", "x"), [("a", Leaf("x"))]);
    assert props[..1] == [props[0]];
  }

  /** A shorter key that comes later replaces the whole submapping. */
  lemma OverwriteExample()
    ensures NestAll([("a.b", "y"), ("a", "x")]) == Ok([("a", Leaf("x"))])
  {
    var props := [("a.b", "y"), ("a", "x")];
    SplitJoin(["a"]);
    SplitTwo("a", "b");
    assert props[..1] == [props[0]];
    assert Insert([], ["a", "b"], "y") == Ok([("a", Mapping([("b", Leaf("y"))]))]) by {
      assert ["a", "b"][1..] == ["b"];
      assert Put([], "b", Leaf("y")) == [("b", Leaf("y"))];
      assert Insert([], ["b"], "y") == Ok([("b", Leaf("y"))]);
      assert Put([], "a", Mapping([("b", Leaf("y"))])) == [("a", Mapping([("b", Leaf("y"))]))];
    }
    assert NestAll(props[..1]) == Ok([("a", Mapping([("b", Leaf("y"))]))]);
    assert Put([("a", Mapping([("b", Leaf("y"))]))], "a", Leaf("x")) == [("a", Leaf("x"))];
  }

  /** Empty segments are real steps: `a..b` nests under a child named "". */
  lemma EmptySegmentExample()
    ensures NestAll([("a..b", "v")]) == Ok([("a", Mapping([("", Mapping([("b", Leaf("v"))]))]))])
  {
    SplitExamples();
    var b := [("b", Leaf("v"))];
    assert Insert([], ["", "b"], "v") == Ok([("", Mapping(b))]) by {
      assert ["", "b"][1..] == ["b"];
      assert Put([], "b", Leaf("v")) == b;
      assert Insert([], ["b"], "v") == Ok(b);
      assert Put([], "", Mapping(b)) == [("", Mapping(b))];
    }
    assert ["a", "", "b"][1..] == ["", "b"];
    assert Put([], "a", Mapping([("", Mapping(b))])) == [("a", Mapping([("", Mapping(b))]))];
    assert Insert([], ["a", "", "b"], "v") == Ok([("a", Mapping([("", Mapping(b))]))]);
  }
}
