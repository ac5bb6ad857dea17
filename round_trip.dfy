/** Nesting a set of properties and flattening the tree again gives the
    properties back, provided no key's segments run on past another key's
    and no key starts with a dot. */
module RoundTrip {
  import opened Results
  import opened DottedKeys
  import opened ConfigTree
  import opened Nest
  import opened Flattening

  /** Entry `i` is the last one with its key. */
  predicate LastOfKey(props: seq<(string, string)>, i: nat)
    requires i < |props|
  {
    forall j :: i < j < |props| ==> props[j].0 != props[i].0
  }

  /** The properties as a key-value table: its keys are the keys of the
      entries, and each holds the value of the last entry with that key. */
  function ToMap(props: seq<(string, string)>): (m: map<string, string>)
    ensures forall k :: k in m <==> exists i :: 0 <= i < |props| && props[i].0 == k
    ensures forall i :: 0 <= i < |props| && LastOfKey(props, i) ==>
      props[i].0 in m && m[props[i].0] == props[i].1
  {
    if props == [] then map[]
    else
      var init := props[..|props| - 1];
      var last := props[|props| - 1];
      var m0 := ToMap(init);
      var m := m0[last.0 := last.1];
      ToMapStepKeys(props, init, m0, m);
      ToMapStepLast(props, init, m0, m);
      m
  }

  /** The keys after one more entry. */
  lemma ToMapStepKeys(props: seq<(string, string)>, init: seq<(string, string)>, m0: map<string, string>, m: map<string, string>)
    requires |props| >= 1 && init == props[..|props| - 1] && m == m0[props[|props| - 1].0 := props[|props| - 1].1]
    requires forall k :: k in m0 <==> exists i :: 0 <= i < |init| && init[i].0 == k
    ensures forall k :: k in m <==> exists i :: 0 <= i < |props| && props[i].0 == k
  {
    forall k ensures k in m <==> exists i :: 0 <= i < |props| && props[i].0 == k {
      if exists i :: 0 <= i < |props| && props[i].0 == k {
        var i :| 0 <= i < |props| && props[i].0 == k;
        if i < |init| {
          assert init[i].0 == k;
        }
      }
      if k in m0 {
        var i :| 0 <= i < |init| && init[i].0 == k;
        assert props[i].0 == k;
      }
    }
  }

  /** The values after one more entry. */
  lemma ToMapStepLast(props: seq<(string, string)>, init: seq<(string, string)>, m0: map<string, string>, m: map<string, string>)
    requires |props| >= 1 && init == props[..|props| - 1] && m == m0[props[|props| - 1].0 := props[|props| - 1].1]
    requires forall i :: 0 <= i < |init| && LastOfKey(init, i) ==> init[i].0 in m0 && m0[init[i].0] == init[i].1
    ensures forall i :: 0 <= i < |props| && LastOfKey(props, i) ==> props[i].0 in m && m[props[i].0] == props[i].1
  {
    forall i | 0 <= i < |props| && LastOfKey(props, i) ensures props[i].0 in m && m[props[i].0] == props[i].1 {
      if i < |init| {
        forall j | i < j < |init| ensures init[j].0 != init[i].0 {
          assert init[j] == props[j] && init[i] == props[i];
        }
        assert props[i] == init[i];
      }
    }
  }

  predicate DistinctKeys(props: seq<(string, string)>) {
    forall i, j :: 0 <= i < j < |props| ==> props[i].0 != props[j].0
  }

  /** No key's segment list is a proper prefix of another key's. */
  predicate PrefixFree(props: seq<(string, string)>) {
    forall i, j :: 0 <= i < |props| && 0 <= j < |props| ==>
      !IsProperPrefix(Split(props[i].0), Split(props[j].0))
  }

  /** No key starts with a dot. */
  predicate NoLeadingDot(props: seq<(string, string)>) {
    forall i :: 0 <= i < |props| ==> props[i].0 == "" || props[i].0[0] != '.'
  }

  // ---------------------------------------------------------------------
  // What nesting keeps true

  /** The top-level entry named `""`, if any, is a scalar. */
  predicate UnnamedIsLeaf(t: Entries) {
    Get(t, "").Some? ==> Get(t, "").value.Leaf?
  }

  /** The tree `t` holds exactly the table `m`: a scalar sits at the
      segments of `k` exactly when `k` is a key of `m`, holding its value. */
  ghost predicate Holds(t: Entries, m: map<string, string>) {
    WellFormed(Mapping(t)) && UnnamedIsLeaf(t) &&
    forall k :: LeafAt(Mapping(t), Split(k)) == (if k in m then Some(m[k]) else None)
  }

  lemma UnnamedLeafAt(t: Entries)
    requires KeysUnique(t) && UnnamedIsLeaf(t)
    ensures NoUnnamedMapping(t)
  {
    forall j | 0 <= j < |t| && t[j].0 == ""
      ensures t[j].1.Leaf?
    {
      GetAt(t, j);
    }
  }

  /** A key that does not start with a dot has a non-empty first segment
      unless it is a single segment. */
  lemma SplitHead(k: string)
    requires k == "" || k[0] != '.'
    ensures |Split(k)| == 1 || Split(k)[0] != ""
  {
  }

  /** Putting a well-formed node under a dot-free key keeps a mapping
      well-formed. */
  lemma PutWellFormed(es: Entries, key: string, node: Node)
    requires WellFormed(Mapping(es)) && DotFree(key) && WellFormed(node)
    ensures WellFormed(Mapping(Put(es, key, node)))
  {
    var r := Put(es, key, node);
    PutEntries(es, key, node);
    forall i | 0 <= i < |r|
      ensures DotFree(r[i].0) && WellFormed(r[i].1)
    {
      if r[i] != (key, node) {
        var j :| 0 <= j < |es| && es[j] == r[i];
      }
    }
  }

  /** Nesting one entry keeps the tree well-formed. */
  lemma {:induction false} InsertWellFormed(es: Entries, segs: seq<string>, v: string)
    requires |segs| >= 1 && AllDotFree(segs) && WellFormed(Mapping(es))
    requires Insert(es, segs, v).Ok?
    ensures WellFormed(Mapping(Insert(es, segs, v).value))
    decreases |segs|
  {
    if |segs| == 1 {
      PutWellFormed(es, segs[0], Leaf(v));
    } else {
      var tail := segs[1..];
      assert AllDotFree(tail) by {
        forall i | 0 <= i < |tail| ensures DotFree(tail[i]) {
          assert tail[i] == segs[i + 1];
        }
      }
      match Get(es, segs[0]) {
        case Some(Mapping(ch)) =>
          var j := IndexOf(es, segs[0]);
          assert WellFormed(es[j].1);
          InsertWellFormed(ch, tail, v);
          PutWellFormed(es, segs[0], Mapping(Insert(ch, tail, v).value));
        case None =>
          InsertWellFormed([], tail, v);
          PutWellFormed(es, segs[0], Mapping(Insert([], tail, v).value));
      }
    }
  }

  /** Nesting one entry changes only the top-level entry named by its first
      segment, and that entry becomes a mapping when the key has more than
      one segment. */
  lemma InsertTop(es: Entries, segs: seq<string>, v: string, key: string)
    requires |segs| >= 1 && Insert(es, segs, v).Ok?
    ensures key != segs[0] ==> Get(Insert(es, segs, v).value, key) == Get(es, key)
    ensures |segs| > 1 ==> Get(Insert(es, segs, v).value, segs[0]).Some? &&
                           Get(Insert(es, segs, v).value, segs[0]).value.Mapping?
  {
  }

  /** Nesting a key none of whose segment prefixes is a key of `m`, and
      which is itself no prefix of a key of `m`, keeps `Holds`. */
  lemma {:induction false} InsertHolds(t: Entries, m: map<string, string>, k0: string, v: string)
    requires Holds(t, m) && (k0 == "" || k0[0] != '.')
    requires forall k :: k in m ==> !IsProperPrefix(Split(k), Split(k0)) && !IsProperPrefix(Split(k0), Split(k))
    ensures Insert(t, Split(k0), v).Ok?
    ensures Holds(Insert(t, Split(k0), v).value, m[k0 := v])
  {
    var segs := Split(k0);
    InsertSucceeds(t, m, k0, v);
    var t' := Insert(t, segs, v).value;
    InsertWellFormed(t, segs, v);
    SplitHead(k0);
    InsertTop(t, segs, v, "");
    forall k ensures LeafAt(Mapping(t'), Split(k)) == (if k in m[k0 := v] then Some(m[k0 := v][k]) else None) {
      InsertLeafAt(t, m, k0, v, k);
    }
  }

  /** No scalar blocks the path of `k0`. */
  lemma InsertSucceeds(t: Entries, m: map<string, string>, k0: string, v: string)
    requires Holds(t, m)
    requires forall k :: k in m ==> !IsProperPrefix(Split(k), Split(k0))
    ensures Insert(t, Split(k0), v).Ok?
  {
    var segs := Split(k0);
    InsertFailsIff(t, segs, v);
    if Insert(t, segs, v).Err? {
      var j :| 1 <= j < |segs| && LeafAt(Mapping(t), segs[..j]).Some?;
      var front := segs[..j];
      assert AllDotFree(front) by {
        forall i | 0 <= i < |front| ensures DotFree(front[i]) {
          assert front[i] == segs[i];
        }
      }
      SplitJoin(front);
      var k := Join(front);
      assert LeafAt(Mapping(t), Split(k)).Some?;
      assert IsProperPrefix(Split(k), segs);
      assert false;
    }
  }

  /** The scalar at the segments of one key after nesting `k0`. */
  lemma InsertLeafAt(t: Entries, m: map<string, string>, k0: string, v: string, k: string)
    requires Holds(t, m)
    requires forall k :: k in m ==> !IsProperPrefix(Split(k), Split(k0)) && !IsProperPrefix(Split(k0), Split(k))
    requires Insert(t, Split(k0), v).Ok?
    ensures LeafAt(Mapping(Insert(t, Split(k0), v).value), Split(k))
         == (if k in m[k0 := v] then Some(m[k0 := v][k]) else None)
  {
    var segs := Split(k0);
    var p := Split(k);
    var t' := Insert(t, segs, v).value;
    InsertLookup(t, segs, v, t', p);
    if p == segs {
      JoinSplit(k);
      JoinSplit(k0);
    } else {
      assert k != k0;
      assert LeafAt(Mapping(t), p) == (if k in m then Some(m[k]) else None);
    }
  }

  /** Nesting entries whose keys are prefix free and do not start with a dot
      never fails, and the tree holds exactly the properties' table. */
  lemma {:induction false} NestHolds(props: seq<(string, string)>)
    requires PrefixFree(props) && NoLeadingDot(props)
    ensures NestAll(props).Ok? && Holds(NestAll(props).value, ToMap(props))
  {
    if props == [] {
      forall k ensures LeafAt(Mapping([]), Split(k)) == None {
        assert Split(k) != [];
      }
    } else {
      var n := |props| - 1;
      var init := props[..n];
      InitKeepsConditions(props);
      NestHolds(init);
      var t := NestAll(init).value;
      var k0 := props[n].0;
      assert forall k :: k in ToMap(init) ==>
        !IsProperPrefix(Split(k), Split(k0)) && !IsProperPrefix(Split(k0), Split(k)) by {
        forall k | k in ToMap(init)
          ensures !IsProperPrefix(Split(k), Split(k0)) && !IsProperPrefix(Split(k0), Split(k))
        {
          var i :| 0 <= i < |init| && init[i].0 == k;
          assert props[i].0 == k;
        }
      }
      assert k0 == "" || k0[0] != '.';
      InsertHolds(t, ToMap(init), k0, props[n].1);
    }
  }

  /** Dropping the last entry keeps both conditions. */
  lemma InitKeepsConditions(props: seq<(string, string)>)
    requires |props| >= 1 && PrefixFree(props) && NoLeadingDot(props)
    ensures PrefixFree(props[..|props| - 1]) && NoLeadingDot(props[..|props| - 1])
  {
    var init := props[..|props| - 1];
    forall i, j | 0 <= i < |init| && 0 <= j < |init|
      ensures !IsProperPrefix(Split(init[i].0), Split(init[j].0))
    {
      assert init[i] == props[i] && init[j] == props[j];
    }
    forall i | 0 <= i < |init| ensures init[i].0 == "" || init[i].0[0] != '.' {
      assert init[i] == props[i];
    }
  }

  /** Round trip: flattening the nested properties gives back their table. */
  lemma RoundTrip(props: seq<(string, string)>)
    requires PrefixFree(props) && NoLeadingDot(props)
    ensures NestAll(props).Ok?
    ensures Flatten(NestAll(props).value) == ToMap(props)
  {
    NestHolds(props);
    var t := NestAll(props).value;
    var m := ToMap(props);
    var f := Flatten(t);
    assert forall k :: (k in f <==> k in m) && (k in m ==> f[k] == m[k]) by {
      UnnamedLeafAt(t);
      forall k ensures (k in f <==> k in m) && (k in m ==> f[k] == m[k]) {
        FlattenLeaves(t, k);
      }
    }
    SameEntries(f, m);
  }

  /** Two tables with the same keys and the same values are equal. */
  lemma SameEntries(a: map<string, string>, b: map<string, string>)
    requires forall k :: (k in a <==> k in b) && (k in b ==> a[k] == b[k])
    ensures a == b
  {
    assert a.Keys == b.Keys;
  }

  /** With distinct keys, every entry comes back with its own value and
      nothing else comes back. */
  lemma RoundTripEntries(props: seq<(string, string)>)
    requires DistinctKeys(props) && PrefixFree(props) && NoLeadingDot(props)
    ensures NestAll(props).Ok?
    ensures forall i :: 0 <= i < |props| ==>
      props[i].0 in Flatten(NestAll(props).value) && Flatten(NestAll(props).value)[props[i].0] == props[i].1
    ensures forall k :: k in Flatten(NestAll(props).value) ==> exists i :: 0 <= i < |props| && props[i].0 == k
  {
    RoundTrip(props);
    forall i | 0 <= i < |props| ensures LastOfKey(props, i) {
    }
  }

  /** A key starting with a dot nests under a child named `""`, and since
      the flattener treats an empty prefix as no prefix, it comes back
      without its leading dot. */
  lemma LeadingDotExample()
    ensures NestAll([(".b", "v")]) == Ok([("", Mapping([("b", Leaf("v"))]))])
    ensures Flatten([("", Mapping([("b", Leaf("v"))]))]) == map["b" := "v"]
  {
    SplitExamples();
    var props := [(".b", "v")];
    assert props[..0] == [];
    InsertIntoEmpty(["", "b"], "v");
    assert ["", "b"][1..] == ["b"] && ["b"][1..] == [];
    InsertIntoEmpty(["b"], "v");
    var inner: Entries := [("b", Leaf("v"))];
    assert EntryFlat(inner, 1, "") == map["b" := "v"];
    assert FlattenFirst(inner, 1, "") == map["b" := "v"];
  }
}
