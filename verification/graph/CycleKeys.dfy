/**
 Canonical forms of cycles. A cycle is a closed walk, its first node repeated at the end; its canonical form drops
 the closing node, rotates the rest to the first occurrence of its least node, and closes it again.
 */
module CycleKeys {
  import opened TextOrder
  import opened Sequences

  type Node = string

  function Min(s: seq<Node>): (m: Node)
    requires s != []
    ensures m in s && forall x | x in s :: Leq(m, x)
  {
    if |s| == 1 then
      Reflexive(s[0]);
      s[0]
    else
      var rest := Min(s[1..]);
      assert s == [s[0]] + s[1..];
      Total(s[0], rest);
      Reflexive(s[0]);
      if Leq(s[0], rest) then
        assert forall x | x in s[1..] :: Leq(s[0], x) by {
          forall x | x in s[1..] ensures Leq(s[0], x) { Transitive(s[0], rest, x); }
        }
        s[0]
      else rest
  }

  lemma {:induction false} MinIsUnique(s: seq<Node>, m: Node)
    requires m in s && forall x | x in s :: Leq(m, x)
    ensures Min(s) == m
  {
    Antisymmetric(Min(s), m);
  }

  /** The first position of `x`. */
  function IndexOf<T(==)>(s: seq<T>, x: T): (i: nat)
    requires x in s
    ensures i < |s| && s[i] == x && x !in s[..i]
  {
    if s[0] == x then 0
    else
      assert s == [s[0]] + s[1..];
      var i := 1 + IndexOf(s[1..], x);
      assert s[..i] == [s[0]] + s[1..][..i - 1];
      i
  }

  function Rotate<T>(s: seq<T>, k: nat): (r: seq<T>)
    requires k <= |s|
    ensures |r| == |s|
  {
    s[k..] + s[..k]
  }

  ghost predicate Rotation<T(!new)>(a: seq<T>, b: seq<T>) {
    exists k: nat :: k <= |a| && b == Rotate(a, k)
  }

  function Close(nodes: seq<Node>): seq<Node>
    requires nodes != []
  {
    nodes + [nodes[0]]
  }

  function Canonicalize(cycle: seq<Node>): seq<Node> {
    if |cycle| <= 1 then cycle
    else
      var nodes := cycle[..|cycle| - 1];
      Close(Rotate(nodes, IndexOf(nodes, Min(nodes))))
  }

  // ---------------------------------------------------------------------------
  // Shape
  // ---------------------------------------------------------------------------

  lemma {:induction false} RotateHasSameNodes<T(!new)>(s: seq<T>, k: nat)
    requires k <= |s|
    ensures forall x :: x in Rotate(s, k) <==> x in s
    ensures multiset(Rotate(s, k)) == multiset(s)
    ensures Distinct(s) ==> Distinct(Rotate(s, k))
  {
    assert s == s[..k] + s[k..];
  }

  /** Closed, as long as its input, and starting at the least node of a rotation of what it was given. */
  lemma {:induction false} CanonicalShape(cycle: seq<Node>)
    requires |cycle| >= 2
    ensures var c := Canonicalize(cycle);
            var nodes := cycle[..|cycle| - 1];
            && |c| == |cycle| && c[0] == c[|c| - 1]
            && c[0] == Min(c[..|c| - 1])
            && Rotation(nodes, c[..|c| - 1])
  {
    var nodes := cycle[..|cycle| - 1];
    var i := IndexOf(nodes, Min(nodes));
    var r := Rotate(nodes, i);
    var c := Canonicalize(cycle);
    assert c[..|c| - 1] == r;
    RotateHasSameNodes(nodes, i);
    MinIsUnique(r, Min(nodes));
  }

  /** Canonicalising twice is canonicalising once, whatever the input. */
  lemma {:induction false} CanonicalizeIsIdempotent(cycle: seq<Node>)
    ensures Canonicalize(Canonicalize(cycle)) == Canonicalize(cycle)
  {
    if |cycle| >= 2 {
      CanonicalShape(cycle);
      var c := Canonicalize(cycle);
      var r := c[..|c| - 1];
      assert IndexOf(r, r[0]) == 0;
      assert Rotate(r, 0) == r;
    }
  }

  /** The directed edges of a walk, in order. */
  function Edges(walk: seq<Node>): seq<(Node, Node)> {
    seq(if walk == [] then 0 else |walk| - 1, i requires 0 <= i < |walk| - 1 => (walk[i], walk[i + 1]))
  }

  lemma {:induction false} EdgesOfRotation(nodes: seq<Node>, k: nat)
    requires nodes != [] && k < |nodes|
    ensures Edges(Close(Rotate(nodes, k))) == Rotate(Edges(Close(nodes)), k)
  {
  }

  /** The canonical form of a closed cycle runs through the same edges in the same direction, from another start. */
  lemma {:induction false} CanonicalKeepsEdges(nodes: seq<Node>)
    requires nodes != []
    ensures Rotation(Edges(Close(nodes)), Edges(Canonicalize(Close(nodes))))
  {
    var cycle := Close(nodes);
    assert cycle[..|cycle| - 1] == nodes;
    EdgesOfRotation(nodes, IndexOf(nodes, Min(nodes)));
  }

  // ---------------------------------------------------------------------------
  // Canonical forms identify rotations
  // ---------------------------------------------------------------------------

  lemma {:induction false} RotateTwice<T>(s: seq<T>, j: nat, k: nat)
    requires j <= |s| && k <= |s|
    ensures Rotate(Rotate(s, j), k) == Rotate(s, if j + k <= |s| then j + k else j + k - |s|)
  {
    var r := Rotate(s, j);
    if j + k <= |s| {
      assert r[k..] == s[j + k..] + s[..j];
      assert r[..k] == s[j..j + k];
      assert s[..j + k] == s[..j] + s[j..j + k];
    } else {
      assert r[k..] == s[j + k - |s|..j];
      assert r[..k] == s[j..] + s[..j + k - |s|];
      assert s[j + k - |s|..] == s[j + k - |s|..j] + s[j..];
    }
  }

  lemma {:induction false} RotationIsSymmetric<T(!new)>(a: seq<T>, b: seq<T>)
    requires Rotation(a, b)
    ensures Rotation(b, a)
  {
    var k: nat :| k <= |a| && b == Rotate(a, k);
    RotateTwice(a, k, |a| - k);
    assert Rotate(a, |a|) == a;
  }

  lemma {:induction false} RotationIsTransitive<T(!new)>(a: seq<T>, b: seq<T>, c: seq<T>)
    requires Rotation(a, b) && Rotation(b, c)
    ensures Rotation(a, c)
  {
    var j: nat :| j <= |a| && b == Rotate(a, j);
    var k: nat :| k <= |b| && c == Rotate(b, k);
    RotateTwice(a, j, k);
  }

  /** Cycles with the same canonical form are rotations of each other, repeated nodes included. */
  lemma {:induction false} SameCanonicalMeansRotation(a: seq<Node>, b: seq<Node>)
    requires a != [] && b != []
    requires Canonicalize(Close(a)) == Canonicalize(Close(b))
    ensures Rotation(a, b)
  {
    assert Close(a)[..|a|] == a && Close(b)[..|b|] == b;
    CanonicalShape(Close(a));
    CanonicalShape(Close(b));
    var c := Canonicalize(Close(a));
    RotationIsSymmetric(b, c[..|c| - 1]);
    RotationIsTransitive(a, c[..|c| - 1], b);
  }

  ghost predicate OccursOnce(s: seq<Node>, x: Node) {
    x in s && forall i, j | 0 <= i < j < |s| && s[i] == x :: s[j] != x
  }

  /** A rotation keeps the canonical form when the least node occurs once. */
  lemma {:induction false} RotationKeepsCanonical(a: seq<Node>, b: seq<Node>)
    requires a != [] && Rotation(a, b) && OccursOnce(a, Min(a))
    ensures Canonicalize(Close(a)) == Canonicalize(Close(b))
  {
    var n, m := |a|, Min(a);
    var k: nat :| k <= n && b == Rotate(a, k);
    assert m in b && Min(b) == m by {
      RotateHasSameNodes(a, k);
      MinIsUnique(b, m);
    }
    assert Close(a)[..n] == a && Close(b)[..n] == b;
    RotateToUnique(a, k, m);
  }

  lemma {:induction false} OnlyIndex(s: seq<Node>, x: Node, i: nat)
    requires OccursOnce(s, x) && i < |s| && s[i] == x
    ensures IndexOf(s, x) == i
  {
    var j := IndexOf(s, x);
    assert s[j] == x;
    assert !(i < j) && !(j < i);
  }

  lemma {:induction false} RotateAt<T>(s: seq<T>, k: nat, j: nat)
    requires k <= |s| && j < |s|
    ensures Rotate(s, k)[j] == s[if j + k < |s| then j + k else j + k - |s|]
    ensures Rotate(s, |s|) == Rotate(s, 0)
  {
  }

  lemma {:induction false} RotateToUnique(a: seq<Node>, k: nat, m: Node)
    requires k <= |a| && OccursOnce(a, m) && m in Rotate(a, k)
    ensures Rotate(Rotate(a, k), IndexOf(Rotate(a, k), m)) == Rotate(a, IndexOf(a, m))
  {
    hide Rotate;
    hide OccursOnce;
    var j := IndexOf(Rotate(a, k), m);
    RotateTwice(a, k, j);
    RotateAt(a, k, j);
    OnlyIndex(a, m, if j + k < |a| then j + k else j + k - |a|);
  }

  /** For distinct nodes two cycles have the same canonical form exactly when one is a rotation of the other. */
  lemma {:induction false} CanonicalIdentifiesRotations(a: seq<Node>, b: seq<Node>)
    requires a != [] && b != [] && Distinct(a)
    ensures Canonicalize(Close(a)) == Canonicalize(Close(b)) <==> Rotation(a, b)
  {
    if Rotation(a, b) {
      RotationKeepsCanonical(a, b);
    }
    if Canonicalize(Close(a)) == Canonicalize(Close(b)) {
      SameCanonicalMeansRotation(a, b);
    }
  }

  /** With a repeated least node it can fail: for a, b, a, c a rotation by two has another canonical form. */
  lemma {:induction false} RepeatedNodesCanDiffer(x: Node, y: Node, z: Node)
    requires Leq(x, y) && Leq(x, z) && y != z
    ensures var a, b := [x, y, x, z], [x, z, x, y];
            Rotation(a, b) && Canonicalize(Close(a)) != Canonicalize(Close(b))
  {
    Reflexive(x);
    var a, b := [x, y, x, z], [x, z, x, y];
    assert b == Rotate(a, 2);
    LeastFirst(a);
    LeastFirst(b);
  }

  lemma {:induction false} LeastFirst(a: seq<Node>)
    requires a != [] && forall x | x in a :: Leq(a[0], x)
    ensures Canonicalize(Close(a)) == Close(a)
  {
    MinIsUnique(a, a[0]);
    assert Close(a)[..|a|] == a;
    assert Rotate(a, 0) == a;
  }

  function Reverse<T>(s: seq<T>): (r: seq<T>)
    ensures |r| == |s|
  {
    seq(|s|, i requires 0 <= i < |s| => s[|s| - 1 - i])
  }

  lemma {:induction false} ReversalIsNoRotation<T(!new)>(s: seq<T>)
    requires |s| >= 3 && Distinct(s)
    ensures !Rotation(s, Reverse(s))
  {
    var back, n := Reverse(s), |s|;
    assert back[0] == s[n - 1] && back[1] == s[n - 2];
    forall k: nat | k <= n ensures back != Rotate(s, k) {
      if k == n - 1 {
        assert Rotate(s, k)[1] == s[0];
      } else {
        assert Rotate(s, k)[0] == if k == n then s[0] else s[k];
      }
    }
  }

  /** Direction matters: three or more distinct nodes walked backwards have another canonical form. */
  lemma {:induction false} DirectionMatters(nodes: seq<Node>)
    requires |nodes| >= 3 && Distinct(nodes)
    ensures Canonicalize(Close(Reverse(nodes))) != Canonicalize(Close(nodes))
  {
    ReversalIsNoRotation(nodes);
    CanonicalIdentifiesRotations(nodes, Reverse(nodes));
  }

  // ---------------------------------------------------------------------------
  // Display keys
  // ---------------------------------------------------------------------------

  const ARROW := " -> "

  function Join(names: seq<Node>): string {
    if names == [] then "" else if |names| == 1 then names[0] else names[0] + ARROW + Join(names[1..])
  }

  function MakeCycleKey(cycle: seq<Node>): string { Join(Canonicalize(cycle)) }

  lemma {:induction false} JoinWithLast(names: seq<Node>, x: Node)
    requires names != []
    ensures Join(names + [x]) == Join(names) + " -> " + x
  {
    var more := names + [x];
    assert more[0] == names[0] && more[1..] == names[1..] + [x];
    if |names| == 1 {
      assert more[1..] == [x];
    } else {
      JoinWithLast(names[1..], x);
    }
  }

  /** The key of a cycle written from its least node: all nodes with arrows between them, and the first again at the end. */
  lemma {:induction false} KeyFromLeast(nodes: seq<Node>)
    requires nodes != [] && forall x | x in nodes :: Leq(nodes[0], x)
    ensures MakeCycleKey(Close(nodes)) == Join(nodes) + " -> " + nodes[0]
  {
    hide Canonicalize;
    LeastFirst(nodes);
    JoinWithLast(nodes, nodes[0]);
  }

  /** The key of any closed cycle: its nodes from the least one on, and that one again. */
  lemma {:induction false} KeyOfCycle(nodes: seq<Node>) returns (r: seq<Node>)
    requires nodes != []
    ensures Rotation(nodes, r) && r != [] && forall x | x in nodes :: Leq(r[0], x)
    ensures MakeCycleKey(Close(nodes)) == Join(r) + " -> " + r[0]
    ensures r[0] <= MakeCycleKey(Close(nodes))
  {
    hide Canonicalize;
    hide Join;
    hide Rotate;
    var c := Canonicalize(Close(nodes));
    CanonicalShape(Close(nodes));
    assert Close(nodes)[..|nodes|] == nodes;
    r := c[..|c| - 1];
    assert c == r + [r[0]];
    RotationsShareNodes(nodes, r);
    JoinWithLast(r, r[0]);
    JoinStarts(c);
  }

  lemma {:induction false} RotationsShareNodes(a: seq<Node>, b: seq<Node>)
    requires Rotation(a, b)
    ensures forall x :: x in a <==> x in b
  {
    var k: nat :| k <= |a| && b == Rotate(a, k);
    RotateHasSameNodes(a, k);
  }

  lemma {:induction false} JoinStarts(names: seq<Node>)
    requires names != []
    ensures names[0] <= Join(names)
  {
  }

  /** The key of a cycle of two nodes, from wherever it is walked. */
  lemma {:induction false} TwoNodeKey()
    ensures MakeCycleKey(["a", "b", "a"]) == "a -> b -> a" && MakeCycleKey(["b", "a", "b"]) == "a -> b -> a"
  {
    hide MakeCycleKey;
    hide Leq;
    hide Distinct;
    var a, b := ["a", "b"], ["b", "a"];
    LeqAlphabet();
    Reflexive("a");
    assert Close(a) == ["a", "b", "a"] && Close(b) == ["b", "a", "b"];
    KeyFromLeast(a);
    assert Join(["b"]) == "b";
    assert a[1..] == ["b"] && Join(a) == "a" + ARROW + Join(a[1..]);
    assert b == Rotate(a, 1);
    KeyOfRotation(a, b);
  }

  lemma {:induction false} KeyOfRotation(a: seq<Node>, b: seq<Node>)
    requires a != [] && b != [] && Rotation(a, b) && Distinct(a)
    ensures MakeCycleKey(Close(a)) == MakeCycleKey(Close(b))
  {
    CanonicalIdentifiesRotations(a, b);
  }

  predicate SpaceFree(x: Node) { ' ' !in x }

  lemma {:induction false} FirstSpace(x: Node, s: string, y: Node, t: string)
    requires SpaceFree(x) && SpaceFree(y)
    requires x + " " + s == y + " " + t
    ensures x == y && s == t
  {
    SpaceAt(x, s);
    SpaceAt(y, t);
    var u, v := x + " " + s, y + " " + t;
    assert x == u[..|x|] && y == v[..|y|];
    assert s == u[|x| + 1..] && t == v[|y| + 1..];
  }

  lemma {:induction false} SpaceAt(x: Node, s: string)
    requires SpaceFree(x)
    ensures ' ' in x + " " + s && IndexOf(x + " " + s, ' ') == |x|
  {
    var u := x + " " + s;
    assert u[|x|] == ' ';
    var i := IndexOf(u, ' ');
    forall j | 0 <= j < |x| ensures u[j] != ' ' {
      assert u[j] == x[j];
    }
  }

  lemma {:induction false} JoinHasSpace(names: seq<Node>)
    ensures |names| > 1 ==> ' ' in Join(names)
  {
    if |names| > 1 {
      assert Join(names)[|names[0]|] == ' ';
    }
  }

  lemma {:induction false} JoinIsInjective(a: seq<Node>, b: seq<Node>)
    requires a != [] && b != []
    requires (forall x | x in a :: SpaceFree(x)) && (forall x | x in b :: SpaceFree(x))
    requires Join(a) == Join(b)
    ensures a == b
  {
    JoinHasSpace(a);
    JoinHasSpace(b);
    assert SpaceFree(a[0]) && SpaceFree(b[0]);
    assert |a| == 1 && |b| == 1 ==> a == [a[0]] && b == [b[0]];
    if |a| > 1 && |b| > 1 {
      assert Join(a) == a[0] + " " + ("-> " + Join(a[1..]));
      assert Join(b) == b[0] + " " + ("-> " + Join(b[1..]));
      FirstSpace(a[0], "-> " + Join(a[1..]), b[0], "-> " + Join(b[1..]));
      assert Join(a[1..]) == ("-> " + Join(a[1..]))[3..];
      assert Join(b[1..]) == ("-> " + Join(b[1..]))[3..];
      JoinIsInjective(a[1..], b[1..]);
      assert a == [a[0]] + a[1..] && b == [b[0]] + b[1..];
    }
  }

  /** Keys of cycles over space-free names agree exactly on rotations, so keys deduplicate cycles. */
  lemma {:induction false} KeysIdentifyRotations(a: seq<Node>, b: seq<Node>)
    requires a != [] && b != [] && Distinct(a)
    requires (forall x | x in a :: SpaceFree(x)) && (forall x | x in b :: SpaceFree(x))
    ensures MakeCycleKey(Close(a)) == MakeCycleKey(Close(b)) <==> Rotation(a, b)
  {
    CanonicalIdentifiesRotations(a, b);
    SpaceFreeCanonical(a);
    SpaceFreeCanonical(b);
    if MakeCycleKey(Close(a)) == MakeCycleKey(Close(b)) {
      JoinIsInjective(Canonicalize(Close(a)), Canonicalize(Close(b)));
    }
  }

  lemma {:induction false} SpaceFreeCanonical(a: seq<Node>)
    requires a != [] && forall x | x in a :: SpaceFree(x)
    ensures forall x | x in Canonicalize(Close(a)) :: SpaceFree(x)
    ensures Canonicalize(Close(a)) != []
  {
    assert Close(a)[..|a|] == a;
    RotateHasSameNodes(a, IndexOf(a, Min(a)));
  }

  /**
   Without that, keys collide: a node whose name contains the separator reads as two nodes. A cycle of two nodes and one
   of three then have the same key.
   */
  lemma {:induction false} KeysCanCollide(x: Node, y: Node, z: Node)
    requires Leq(x, y) && Leq(x, z)
    ensures var a, b := [x, y + ARROW + z], [x, y, z];
            MakeCycleKey(Close(a)) == MakeCycleKey(Close(b)) && |a| != |b|
  {
    hide Leq;
    hide Canonicalize;
    hide Join;
    var a, b := [x, y + ARROW + z], [x, y, z];
    ShorterFirst(y, ARROW + z);
    assert y + ARROW + z == y + (ARROW + z);
    Transitive(x, y, y + ARROW + z);
    Reflexive(x);
    LeastFirst(a);
    LeastFirst(b);
    assert Close(a) == [x, y + ARROW + z, x] && Close(b) == [x, y, z, x];
    hide *;
    JoinedAlike(x, y, z);
  }

  lemma {:induction false} JoinedAlike(x: Node, y: Node, z: Node)
    ensures Join([x, y + ARROW + z, x]) == Join([x, y, z, x])
  {
    var rest := z + ARROW + x;
    JoinTwo(x, y + ARROW + z, x);
    JoinTwo(y, z, x);
    assert [x, y, z, x][1..] == [y, z, x];
    assert Join([x, y, z, x]) == x + ARROW + Join([y, z, x]);
    hide *;
    assert (y + ARROW + z) + ARROW + x == y + ARROW + rest;
  }

  lemma {:induction false} JoinTwo(x: Node, y: Node, z: Node)
    ensures Join([x, y, z]) == x + ARROW + (y + ARROW + z)
  {
    assert [x, y, z][1..] == [y, z] && [y, z][1..] == [z];
    assert Join([y, z]) == y + ARROW + z;
  }

  lemma {:induction false} LeqAlphabet()
    ensures Leq("a", "b") && Leq("a", "c")
  {
  }

  /** Two elementary cycles of different lengths with one key. */
  lemma {:induction false} CollidingKeys()
    ensures Distinct(["a", "b -> c"]) && Distinct(["a", "b", "c"])
    ensures MakeCycleKey(["a", "b -> c", "a"]) == MakeCycleKey(["a", "b", "c", "a"])
  {
    hide Leq;
    hide MakeCycleKey;
    assert "b" + ARROW + "c" == "b -> c";
    LeqAlphabet();
    assert Close(["a", "b -> c"]) == ["a", "b -> c", "a"] && Close(["a", "b", "c"]) == ["a", "b", "c", "a"];
    KeysCanCollide("a", "b", "c");
  }
}
