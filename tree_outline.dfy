/**
 * Outlines: what each node shows apart from its subtree. The pre-order
 * listing of outlines determines a forest, so an edit is described completely
 * by how it changes that listing; the frame lemmas of the mutators say that
 * only one block of it changes.
 */
module TreeOutline {
  import opened TreeNodes

  /**
   * A node's own fields, and how many children it has: -1 when the
   * `children` attribute is missing.
   */
  function Outline(n: Node): (Node, int) {
    (n.(children := Absent), if n.children.Present? then |n.children.nodes| else -1)
  }

  function Outlines(s: seq<Node>): seq<(Node, int)> {
    if s == [] then [] else [Outline(s[0])] + Outlines(s[1..])
  }

  lemma {:induction false} OutlinesAppend(a: seq<Node>, b: seq<Node>)
    ensures Outlines(a + b) == Outlines(a) + Outlines(b)
  {
    if a == [] {
      assert a + b == b;
    } else {
      assert (a + b)[0] == a[0] && (a + b)[1..] == a[1..] + b;
      OutlinesAppend(a[1..], b);
    }
  }

  lemma OutlinesCons(n: Node, x: seq<Node>, y: seq<Node>)
    ensures Outlines([n] + x + y) == [Outline(n)] + Outlines(x) + Outlines(y)
  {
    assert ([n] + x + y)[0] == n && ([n] + x + y)[1..] == x + y;
    OutlinesAppend(x, y);
  }

  /** Two nodes with the same outline and the same children are the same node. */
  lemma SameOutline(n: Node, m: Node)
    requires Outline(n) == Outline(m) && Kids(n) == Kids(m)
    ensures n == m
  {
    assert n.(children := Absent) == m.(children := Absent);
    if n.children.Present? {
      assert m.children.Present?;
    } else {
      assert m.children.Absent?;
    }
  }

  /**
   * Forests with the same number of roots whose pre-order outline listings
   * agree (followed by anything) are the same forest: outlines lose nothing.
   */
  lemma {:induction false} OutlinesDetermine(a: Tree, b: Tree, x: seq<(Node, int)>, y: seq<(Node, int)>)
    requires |a| == |b| && Outlines(Flatten(a)) + x == Outlines(Flatten(b)) + y
    ensures a == b && x == y
    decreases |Flatten(a)|
  {
    if a != [] {
      var n, m := a[0], b[0];
      var a', b' := Kids(n) + a[1..], Kids(m) + b[1..];
      assert a == [n] + a[1..] && b == [m] + b[1..];
      ListingCons(n, a[1..]);
      ListingCons(m, b[1..]);
      OutlinesAppend([n], Flatten(a'));
      OutlinesAppend([m], Flatten(b'));
      var la, lb := Outlines(Flatten(a')), Outlines(Flatten(b'));
      assert [Outline(n)] + la + x == [Outline(m)] + lb + y;
      assert Outline(n) == Outline(m) by {
        assert ([Outline(n)] + la + x)[0] == ([Outline(m)] + lb + y)[0];
      }
      assert la + x == lb + y by {
        assert ([Outline(n)] + la + x)[1..] == ([Outline(m)] + lb + y)[1..];
        AppendAssoc([Outline(n)], la, x);
        AppendAssoc([Outline(m)], lb, y);
      }
      assert |Kids(n)| == |Kids(m)|;
      OutlinesDetermine(a', b', x, y);
      assert Kids(n) == a'[..|Kids(n)|] == b'[..|Kids(m)|] == Kids(m);
      assert a[1..] == a'[|Kids(n)|..] == b'[|Kids(m)|..] == b[1..];
      SameOutline(n, m);
    } else {
      assert Outlines(Flatten(a)) == [] == Outlines(Flatten(b));
      assert x == [] + x && y == [] + y;
    }
  }

  /** The listing of a non-empty forest: its first root, then the forest of that root's children and the other roots. */
  lemma ListingCons(n: Node, rest: Tree)
    ensures Flatten([n] + rest) == [n] + Flatten(Kids(n) + rest)
    ensures |Flatten(Kids(n) + rest)| < |Flatten([n] + rest)|
  {
    FlattenCons(n, rest);
    FlattenAppend(Kids(n), rest);
    AppendAssoc([n], Flatten(Kids(n)), Flatten(rest));
  }

  // ------------------------------------------------------------ slices

  /** `blk` sits in `s` at position `k`. */
  predicate BlockAt(s: seq<Node>, k: int, blk: seq<Node>) {
    0 <= k && k + |blk| <= |s| && s[k..k + |blk|] == blk
  }

  /** The outlines of `s` with the block of `e` entries at `k` replaced by `mid`. */
  function Spliced(s: seq<Node>, k: int, e: nat, mid: seq<(Node, int)>): seq<(Node, int)>
    requires 0 <= k && k + e <= |s|
  {
    Outlines(s[..k]) + mid + Outlines(s[k + e..])
  }

  /**
   * An edit inside the middle part `b` of a listing `s == a + b + c`, with
   * `a` replaced by a part of the same outlines, is an edit of the whole
   * listing at the shifted position `at`.
   */
  lemma FrameShift(s: seq<Node>, s': seq<Node>, a: seq<Node>, a': seq<Node>, b: seq<Node>, b': seq<Node>,
                   c: seq<Node>, at: int, k: nat, e: nat, mid: seq<(Node, int)>)
    requires s == a + b + c && s' == a' + b' + c && at == |a| + k
    requires Outlines(a') == Outlines(a) && k + e <= |b|
    requires Outlines(b') == Spliced(b, k, e, mid)
    ensures 0 <= at && at + e <= |s|
    ensures Outlines(s') == Spliced(s, at, e, mid)
  {
    SliceParts(s, a, b, c, at, k, e);
    OutlinesAppend3(a', b', c);
    OutlinesAppend(a, b[..k]);
    OutlinesAppend(b[k + e..], c);
    Regroup(Outlines(a), Outlines(b[..k]), mid, Outlines(b[k + e..]), Outlines(c));
  }

  lemma OutlinesAppend3(x: seq<Node>, y: seq<Node>, z: seq<Node>)
    ensures Outlines(x + y + z) == Outlines(x) + Outlines(y) + Outlines(z)
  {
    OutlinesAppend(x + y, z);
    OutlinesAppend(x, y);
  }

  /** `FrameShift` with nothing after the edited part. */
  lemma FrameShiftEnd(s: seq<Node>, s': seq<Node>, a: seq<Node>, b: seq<Node>, b': seq<Node>,
                      at: int, k: nat, e: nat, mid: seq<(Node, int)>)
    requires s == a + b && s' == a + b' && at == |a| + k
    requires k + e <= |b| && Outlines(b') == Spliced(b, k, e, mid)
    ensures 0 <= at && at + e <= |s|
    ensures Outlines(s') == Spliced(s, at, e, mid)
  {
    assert s == a + b + [] && s' == a + b' + [];
    FrameShift(s, s', a, a, b, b', [], at, k, e, mid);
  }

  /** Replacing the front part `b` of a listing `s == b + c` by `b'`. */
  lemma FrameFront(s: seq<Node>, s': seq<Node>, b: seq<Node>, b': seq<Node>, c: seq<Node>)
    requires s == b + c && s' == b' + c
    ensures |b| <= |s|
    ensures Outlines(s') == Spliced(s, 0, |b|, Outlines(b'))
  {
    assert s[..0] == [] && s[|b|..] == c;
    OutlinesAppend(b', c);
  }

  lemma SliceParts<T>(s: seq<T>, a: seq<T>, b: seq<T>, c: seq<T>, at: int, k: nat, e: nat)
    requires s == a + b + c && at == |a| + k && k + e <= |b|
    ensures 0 <= at && at + e <= |s|
    ensures s[..at] == a + b[..k]
    ensures s[at + e..] == b[k + e..] + c
  {
  }

  lemma SplitAt<T>(s: seq<T>, i: nat)
    requires i < |s|
    ensures s == s[..i] + [s[i]] + s[i + 1..]
  {
  }

  lemma SplitTwo<T>(s: seq<T>, j: nat)
    requires j <= |s|
    ensures s == s[..j] + s[j..]
  {
  }

  lemma Regroup<T>(v: seq<T>, w: seq<T>, x: seq<T>, y: seq<T>, z: seq<T>)
    ensures v + (w + x + y) + z == (v + w) + x + (y + z)
  {
  }
}
