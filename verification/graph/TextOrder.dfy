/** Strings in code-point order, as Python compares them. */
module TextOrder {
  predicate Leq(a: string, b: string) {
    a == "" || (b != "" && (a[0] < b[0] || (a[0] == b[0] && Leq(a[1..], b[1..]))))
  }

  lemma {:induction false} Reflexive(a: string)
    ensures Leq(a, a)
  {
    if a != "" {
      Reflexive(a[1..]);
    }
  }

  lemma {:induction false} Total(a: string, b: string)
    ensures Leq(a, b) || Leq(b, a)
  {
    if a != "" && b != "" && a[0] == b[0] {
      Total(a[1..], b[1..]);
    }
  }

  lemma {:induction false} Antisymmetric(a: string, b: string)
    requires Leq(a, b) && Leq(b, a)
    ensures a == b
  {
    if a != "" {
      Antisymmetric(a[1..], b[1..]);
      assert a == [a[0]] + a[1..] && b == [b[0]] + b[1..];
    }
  }

  lemma {:induction false} Transitive(a: string, b: string, c: string)
    requires Leq(a, b) && Leq(b, c)
    ensures Leq(a, c)
  {
    if a != "" && a[0] == b[0] && b[0] == c[0] {
      Transitive(a[1..], b[1..], c[1..]);
    }
  }

  /** The first difference decides. */
  lemma {:induction false} FirstDifference(front: string, x: char, s: string, y: char, t: string)
    requires x < y
    ensures Leq(front + [x] + s, front + [y] + t) && !Leq(front + [y] + t, front + [x] + s)
  {
    var a, b := front + [x] + s, front + [y] + t;
    if front == "" {
      assert a[0] == x && b[0] == y;
    } else {
      FirstDifference(front[1..], x, s, y, t);
      assert a[1..] == front[1..] + [x] + s && b[1..] == front[1..] + [y] + t;
    }
  }

  /** Without a difference the shorter text comes first. */
  lemma {:induction false} ShorterFirst(a: string, more: string)
    ensures Leq(a, a + more) && (more != "" ==> !Leq(a + more, a))
  {
    if a != "" {
      ShorterFirst(a[1..], more);
      assert (a + more)[1..] == a[1..] + more;
    } else {
      assert a + more == more;
    }
  }
}
