/** Dotted property keys: Kotlin's `split(".")`, which keeps every empty
    segment, and the inverse join that the flattener's `"$prefix.$key"`
    builds one step at a time. */
module DottedKeys {

  /** A key segment produced by splitting never contains the separator. */
  predicate DotFree(s: string) {
    '.' !in s
  }

  predicate AllDotFree(segs: seq<string>) {
    forall i :: 0 <= i < |segs| ==> DotFree(segs[i])
  }

  /** Number of separators in `s`. */
  function Dots(s: string): nat {
    if s == [] then 0 else (if s[0] == '.' then 1 else 0) + Dots(s[1..])
  }

  /** `s.split(".")`: one segment more than there are dots, empty segments
      kept (`"a..b"` gives `["a", "", "b"]`, `""` gives `[""]`). */
  function Split(s: string): (segs: seq<string>)
    ensures |segs| == Dots(s) + 1
    ensures AllDotFree(segs)
  {
    if s == [] then [""]
    else if s[0] == '.' then [""] + Split(s[1..])
    else
      var rest := Split(s[1..]);
      [[s[0]] + rest[0]] + rest[1..]
  }

  /** The segments glued back together with `.` between neighbours. */
  function Join(segs: seq<string>): string
    requires |segs| >= 1
  {
    if |segs| == 1 then segs[0] else segs[0] + "." + Join(segs[1..])
  }

  /** `IsPrefix(p, q)`: the path `p` is an initial part of the path `q`. */
  predicate IsPrefix(p: seq<string>, q: seq<string>) {
    |p| <= |q| && q[..|p|] == p
  }

  predicate IsProperPrefix(p: seq<string>, q: seq<string>) {
    |p| < |q| && q[..|p|] == p
  }

  /** Two paths with the same first segment relate as their tails do. */
  lemma PrefixCons(p: seq<string>, q: seq<string>)
    requires p != [] && q != [] && p[0] == q[0]
    ensures p == q <==> p[1..] == q[1..]
    ensures IsPrefix(p, q) <==> IsPrefix(p[1..], q[1..])
    ensures IsPrefix(q, p) <==> IsPrefix(q[1..], p[1..])
    ensures IsProperPrefix(p, q) <==> IsProperPrefix(p[1..], q[1..])
    ensures IsProperPrefix(q, p) <==> IsProperPrefix(q[1..], p[1..])
  {
    assert p == [p[0]] + p[1..] && q == [q[0]] + q[1..];
    if |p| <= |q| {
      assert q[..|p|] == [q[0]] + q[1..][..|p| - 1];
    }
    if |q| <= |p| {
      assert p[..|q|] == [p[0]] + p[1..][..|q| - 1];
    }
  }

  /** Splitting after a dot-free head only extends the first segment. */
  lemma {:induction false} SplitAfterDotFree(a: string, b: string)
    requires DotFree(a)
    ensures Split(a + b) == [a + Split(b)[0]] + Split(b)[1..]
  {
    if a == [] {
      assert a + b == b;
      assert a + Split(b)[0] == Split(b)[0];
      assert Split(b) == [Split(b)[0]] + Split(b)[1..];
    } else {
      assert (a + b)[0] == a[0];
      assert (a + b)[1..] == a[1..] + b;
      SplitAfterDotFree(a[1..], b);
      assert [a[0]] + (a[1..] + Split(b)[0]) == a + Split(b)[0];
    }
  }

  /** Joining what was split gives the key back. */
  lemma {:induction false} JoinSplit(s: string)
    ensures Join(Split(s)) == s
  {
    if s == [] {
    } else if s[0] == '.' {
      JoinSplit(s[1..]);
      assert Split(s) == [""] + Split(s[1..]);
      assert Split(s)[1..] == Split(s[1..]);
      assert s == "" + "." + s[1..];
    } else {
      var rest := Split(s[1..]);
      JoinSplit(s[1..]);
      var segs := Split(s);
      assert segs == [[s[0]] + rest[0]] + rest[1..];
      if |rest| == 1 {
        assert s == [s[0]] + s[1..];
      } else {
        assert segs[1..] == rest[1..];
        assert Join(rest) == rest[0] + "." + Join(rest[1..]);
        assert s == [s[0]] + s[1..];
      }
    }
  }

  /** Splitting what was joined gives the segments back, provided no segment
      contains a dot. */
  lemma {:induction false} SplitJoin(segs: seq<string>)
    requires |segs| >= 1 && AllDotFree(segs)
    ensures Split(Join(segs)) == segs
  {
    if |segs| == 1 {
      SplitAfterDotFree(segs[0], "");
      assert segs[0] + "" == segs[0];
    } else {
      var tail := segs[1..];
      assert AllDotFree(tail) by {
        forall i | 0 <= i < |tail| ensures DotFree(tail[i]) {
          assert tail[i] == segs[i + 1];
        }
      }
      SplitJoin(tail);
      assert DotFree(segs[0]);
      SplitAfterDotFree(segs[0], "." + Join(tail));
      assert segs[0] + "." + Join(tail) == segs[0] + ("." + Join(tail));
      assert ("." + Join(tail))[0] == '.';
      assert ("." + Join(tail))[1..] == Join(tail);
      assert Split("." + Join(tail)) == [""] + tail;
      assert segs[0] + "" == segs[0];
    }
  }

  /** Joining one segment more appends `"." + key`, the step the flattener
      takes at every nested level. */
  lemma {:induction false} JoinSnoc(segs: seq<string>, key: string)
    requires |segs| >= 1
    ensures Join(segs + [key]) == Join(segs) + "." + key
  {
    if |segs| == 1 {
      assert segs + [key] == [segs[0], key];
    } else {
      assert (segs + [key])[1..] == segs[1..] + [key];
      JoinSnoc(segs[1..], key);
    }
  }

  /** Only the single empty segment joins to the empty key. */
  lemma {:induction false} JoinEmpty(segs: seq<string>)
    requires |segs| >= 1 && Join(segs) == ""
    ensures segs == [""]
  {
  }

  /** Splitting a key made of two dot-free segments. */
  lemma SplitTwo(a: string, b: string)
    requires DotFree(a) && DotFree(b)
    ensures Split(a + "." + b) == [a, b]
  {
    assert [a, b][1..] == [b];
    SplitJoin([a, b]);
  }

  /** Splitting a key made of three dot-free segments. */
  lemma SplitThree(a: string, b: string, c: string)
    requires DotFree(a) && DotFree(b) && DotFree(c)
    ensures Split(a + "." + b + "." + c) == [a, b, c]
  {
    assert [a, b, c][1..] == [b, c] && [b, c][1..] == [c];
    assert Join([b, c]) == b + "." + c;
    assert Join([a, b, c]) == a + "." + Join([b, c]);
    assert a + "." + (b + "." + c) == a + "." + b + "." + c;
    SplitJoin([a, b, c]);
  }

  /** Kotlin's `split(".")` keeps empty segments: at the front, in the
      middle and at the end, and the empty key is one empty segment. */
  lemma SplitExamples()
    ensures Split("") == [""]
    ensures Split("a..b") == ["a", "", "b"]
    ensures Split(".b") == ["", "b"]
    ensures Split("a.") == ["a", ""]
  {
    SplitThree("a", "", "b");
    assert "a" + "." + "" + "." + "b" == "a..b";
    SplitTwo("", "b");
    SplitTwo("a", "");
  }
}
