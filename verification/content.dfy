/** The content a filter receives: a PHP value that is a string, an array or
    object of further values, or some other scalar. */
module Content {

  /** A PHP array key (integer or string) or an object property name. */
  datatype Key = Index(i: int) | Name(name: string)

  /** Non-string scalars; filters hand them back untouched. */
  datatype Scalar = Null | Bool(b: bool) | Int(n: int)

  /** PHP arrays and objects are walked by the same `foreach`, so they share one constructor. */
  datatype Kind = Array | Object

  datatype Node =
    | Str(s: string)
    | Container(kind: Kind, entries: seq<Entry>)
    | Value(v: Scalar)

  datatype Entry = Entry(key: Key, val: Node)

  /** `b` has the shape of `a`: same kinds, same keys in the same order, same
      element counts, the same non-string scalars; only string leaves may differ. */
  predicate SameShape(a: Node, b: Node)
  {
    match a
    case Str(_) => b.Str?
    case Value(_) => b == a
    case Container(k, es) =>
      && b.Container?
      && b.kind == k
      && |b.entries| == |es|
      && forall i :: 0 <= i < |es| ==>
           b.entries[i].key == es[i].key && SameShape(es[i].val, b.entries[i].val)
  }

  /** `b` is `a` with every string leaf `s` replaced, in its own position, by `f(s)`:
      same kinds, same keys in the same order, the same non-string scalars. */
  predicate RewrittenBy(a: Node, b: Node, f: string -> string)
  {
    match a
    case Str(s) => b == Str(f(s))
    case Value(_) => b == a
    case Container(k, es) =>
      && b.Container?
      && b.kind == k
      && |b.entries| == |es|
      && forall i :: 0 <= i < |es| ==>
           b.entries[i].key == es[i].key && RewrittenBy(es[i].val, b.entries[i].val, f)
  }

  /** `s` is one of the string leaves of `n`. */
  predicate LeafIn(s: string, n: Node)
  {
    match n
    case Str(t) => s == t
    case Value(_) => false
    case Container(_, es) => exists i :: 0 <= i < |es| && LeafIn(s, es[i].val)
  }

  /** The recursive walk shared by both filters: arrays and objects are rebuilt
      entry by entry under the same keys, `f` is applied to every string leaf,
      and any other value is returned as it is. */
  function Walk(n: Node, f: string -> string): (r: Node)
    ensures RewrittenBy(n, r, f)
  {
    match n
    case Str(s) => Str(f(s))
    case Container(k, es) =>
      Container(k, seq(|es|, i requires 0 <= i < |es| => Entry(es[i].key, Walk(es[i].val, f))))
    case Value(_) => n
  }

  /** A tree rewritten leaf by leaf in place has the shape of the original. */
  lemma {:induction false} RewrittenShape(a: Node, b: Node, f: string -> string)
    requires RewrittenBy(a, b, f)
    ensures SameShape(a, b)
  {
    match a
    case Str(_) =>
    case Value(_) =>
    case Container(k, es) =>
      forall i | 0 <= i < |es|
        ensures SameShape(es[i].val, b.entries[i].val)
      {
        RewrittenShape(es[i].val, b.entries[i].val, f);
      }
  }

  /** `RewrittenBy` pins the result down: the walk is the only tree that rewrites
      `n` leaf by leaf in place. */
  lemma {:induction false} RewrittenByUnique(n: Node, r: Node, f: string -> string)
    requires RewrittenBy(n, r, f)
    ensures r == Walk(n, f)
  {
    match n
    case Str(_) =>
    case Value(_) =>
    case Container(k, es) =>
      var w := Walk(n, f);
      forall i | 0 <= i < |es|
        ensures r.entries[i] == w.entries[i]
      {
        RewrittenByUnique(es[i].val, r.entries[i].val, f);
      }
      assert r.entries == w.entries;
  }

  /** The leaves of the walked tree are exactly the images under `f` of the original leaves. */
  lemma {:induction false} WalkLeaves(n: Node, f: string -> string, t: string)
    ensures LeafIn(t, Walk(n, f)) <==> exists s :: LeafIn(s, n) && t == f(s)
  {
    match n
    case Str(_) =>
    case Value(_) =>
    case Container(k, es) =>
      var r := Walk(n, f);
      if LeafIn(t, r) {
        var i :| 0 <= i < |es| && LeafIn(t, r.entries[i].val);
        WalkLeaves(es[i].val, f, t);
        var s :| LeafIn(s, es[i].val) && t == f(s);
        assert LeafIn(s, n);
      }
      if s :| LeafIn(s, n) && t == f(s) {
        var i :| 0 <= i < |es| && LeafIn(s, es[i].val);
        WalkLeaves(es[i].val, f, t);
        assert LeafIn(t, r.entries[i].val);
      }
  }

  /** A walk whose function fixes every leaf of `n` returns `n` itself. */
  lemma {:induction false} WalkFixed(n: Node, f: string -> string)
    requires forall s :: LeafIn(s, n) ==> f(s) == s
    ensures Walk(n, f) == n
  {
    match n
    case Str(_) =>
    case Value(_) =>
    case Container(k, es) =>
      var r := Walk(n, f);
      forall i | 0 <= i < |es|
        ensures r.entries[i] == es[i]
      {
        forall s | LeafIn(s, es[i].val)
          ensures f(s) == s
        {
          assert LeafIn(s, n);
        }
        WalkFixed(es[i].val, f);
      }
      assert r.entries == es;
  }

  /** Conversely, a walk that returns `n` itself fixes every leaf of `n`. */
  lemma {:induction false} WalkFixedOnly(n: Node, f: string -> string)
    requires Walk(n, f) == n
    ensures forall s :: LeafIn(s, n) ==> f(s) == s
  {
    match n
    case Str(_) =>
    case Value(_) =>
    case Container(k, es) =>
      forall s | LeafIn(s, n)
        ensures f(s) == s
      {
        var i :| 0 <= i < |es| && LeafIn(s, es[i].val);
        assert Walk(n, f).entries[i] == es[i];
        WalkFixedOnly(es[i].val, f);
      }
  }

  /** If `g` undoes `f` on every leaf of `n`, walking with `f` then with `g` gives back `n`. */
  lemma {:induction false} WalkRoundTrip(n: Node, f: string -> string, g: string -> string)
    requires forall s :: LeafIn(s, n) ==> g(f(s)) == s
    ensures Walk(Walk(n, f), g) == n
  {
    match n
    case Str(_) =>
    case Value(_) =>
    case Container(k, es) =>
      var r := Walk(Walk(n, f), g);
      forall i | 0 <= i < |es|
        ensures r.entries[i] == es[i]
      {
        forall s | LeafIn(s, es[i].val)
          ensures g(f(s)) == s
        {
          assert LeafIn(s, n);
        }
        WalkRoundTrip(es[i].val, f, g);
      }
      assert r.entries == es;
  }
}
