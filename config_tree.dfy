/** The nested configuration tree: what SnakeYAML hands to the flattener and
    what the nester builds with `mutableMapOf()`. A mapping keeps its entries
    in insertion order, as Kotlin's `LinkedHashMap` does, with one entry per
    key. */
module ConfigTree {
  import opened Results
  import opened DottedKeys

  /** A YAML node: a scalar (any non-mapping value, as its string form) or a
      mapping from names to child nodes. */
  datatype Node = Leaf(value: string) | Mapping(entries: seq<(string, Node)>)

  type Entries = seq<(string, Node)>

  /** No key occurs twice among the entries of one mapping. */
  predicate KeysUnique(es: Entries) {
    forall i, j :: 0 <= i < j < |es| ==> es[i].0 != es[j].0
  }

  /** Position of the entry for `key`, or -1 when there is none. */
  function IndexOf(es: Entries, key: string): (i: int)
    ensures -1 <= i < |es|
    ensures i >= 0 ==> es[i].0 == key && forall j :: 0 <= j < i ==> es[j].0 != key
    ensures i < 0 ==> forall j :: 0 <= j < |es| ==> es[j].0 != key
  {
    if es == [] then -1
    else if es[0].0 == key then 0
    else
      var j := IndexOf(es[1..], key);
      if j < 0 then -1 else j + 1
  }

  /** `m[key]`: the child bound to `key`, if any. */
  function Get(es: Entries, key: string): (r: Option<Node>)
    ensures r.Some? ==> (key, r.value) in es
    ensures r.None? ==> forall j :: 0 <= j < |es| ==> es[j].0 != key
  {
    var i := IndexOf(es, key);
    if i < 0 then None else Some(es[i].1)
  }

  /** `m[key] = node` on a `LinkedHashMap`: an existing entry is replaced
      where it stands, a new key is appended at the end. */
  function Put(es: Entries, key: string, node: Node): (r: Entries)
    ensures forall k :: Get(r, k) == if k == key then Some(node) else Get(es, k)
    ensures |r| == if Get(es, key).Some? then |es| else |es| + 1
  {
    var i := IndexOf(es, key);
    var r := if i >= 0 then es[i := (key, node)] else es + [(key, node)];
    forall k ensures IndexOf(r, k) == if k == key then (if i >= 0 then i else |es|) else IndexOf(es, k) {
      IndexOfPinned(r, k, if k == key then (if i >= 0 then i else |es|) else IndexOf(es, k));
    }
    r
  }

  /** Putting leaves every other entry where it was and adds no foreign
      entry; unique keys stay unique. */
  lemma PutEntries(es: Entries, key: string, node: Node)
    ensures forall i :: 0 <= i < |es| && es[i].0 != key ==> Put(es, key, node)[i] == es[i]
    ensures forall i :: 0 <= i < |Put(es, key, node)| ==>
      Put(es, key, node)[i] == (key, node) || Put(es, key, node)[i] in es
    ensures KeysUnique(es) ==> KeysUnique(Put(es, key, node))
  {
  }

  /** The first-occurrence conditions pin the index down. */
  lemma IndexOfPinned(es: Entries, key: string, i: int)
    requires -1 <= i < |es|
    requires i >= 0 ==> es[i].0 == key && forall j :: 0 <= j < i ==> es[j].0 != key
    requires i < 0 ==> forall j :: 0 <= j < |es| ==> es[j].0 != key
    ensures IndexOf(es, key) == i
  {
  }

  /** The node reached from `n` by following `path`, one key per level;
      `None` when some step is missing or meets a scalar. */
  function Lookup(n: Node, path: seq<string>): Option<Node>
    decreases path
  {
    if path == [] then Some(n)
    else match n
      case Leaf(_) => None
      case Mapping(es) =>
        match Get(es, path[0])
        case None => None
        case Some(child) => Lookup(child, path[1..])
  }

  /** Looking up a path one step at a time. */
  lemma LookupCons(es: Entries, key: string, child: Node, rest: seq<string>)
    requires Get(es, key) == Some(child)
    ensures Lookup(Mapping(es), [key] + rest) == Lookup(child, rest)
    ensures LeafAt(Mapping(es), [key] + rest) == LeafAt(child, rest)
  {
    assert ([key] + rest)[0] == key && ([key] + rest)[1..] == rest;
  }

  /** The scalar at the end of `path`, if that is where a scalar sits. */
  function LeafAt(n: Node, path: seq<string>): Option<string> {
    match Lookup(n, path)
    case Some(Leaf(v)) => Some(v)
    case _ => None
  }

  /** Every mapping in the tree has unique keys and no key contains a dot,
      as is the case for trees built from split property keys. */
  predicate WellFormed(n: Node) {
    match n
    case Leaf(_) => true
    case Mapping(es) =>
      KeysUnique(es) && forall i :: 0 <= i < |es| ==> DotFree(es[i].0) && WellFormed(es[i].1)
  }
}
