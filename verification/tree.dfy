/** The structure model shared by the parser, the validator and the creator.

    A structure is the generic value a parser produces: a mapping from names
    to values (insertion ordered), where `Null` (or the empty string) stands
    for a file and a nested mapping for a folder. Decoded JSON/YAML may also
    hold lists, other strings and other scalars, so those are values too.
 */
module Tree {

  datatype Option<T> = None | Some(value: T)

  datatype Value =
    | Null
    | Str(s: string)
    | Dict(entries: seq<(string, Value)>)
    | List(items: seq<Value>)
    | Other

  /** The keys of a mapping, in insertion order. */
  function Keys(es: seq<(string, Value)>): (ks: seq<string>)
  {
    seq(|es|, i requires 0 <= i < |es| => es[i].0)
  }

  predicate DistinctKeys(es: seq<(string, Value)>)
  {
    forall i, j :: 0 <= i < j < |es| ==> es[i].0 != es[j].0
  }

  /** Every mapping in `v` has distinct keys, as a Python dict does. */
  predicate WellFormed(v: Value)
  {
    match v
    case Dict(es) => DistinctKeys(es) && forall i :: 0 <= i < |es| ==> WellFormed(es[i].1)
    case List(xs) => forall i :: 0 <= i < |xs| ==> WellFormed(xs[i])
    case _ => true
  }

  /** Every key of every mapping in `v` satisfies `ok`. */
  predicate AllKeys(v: Value, ok: string -> bool)
  {
    match v
    case Dict(es) => forall i :: 0 <= i < |es| ==> ok(es[i].0) && AllKeys(es[i].1, ok)
    case List(xs) => forall i :: 0 <= i < |xs| ==> AllKeys(xs[i], ok)
    case _ => true
  }

  /** `v` is made of mappings and files (`Null`) only: the shape the ASCII parser builds. */
  predicate Plain(v: Value)
  {
    match v
    case Dict(es) => forall i :: 0 <= i < |es| ==> Plain(es[i].1)
    case Null => true
    case _ => false
  }

  /** Position of the first entry with key `k`, or `|es|` when there is none. */
  function IndexOf(es: seq<(string, Value)>, k: string): (i: nat)
    ensures i <= |es|
    ensures i < |es| ==> es[i].0 == k
    ensures forall j :: 0 <= j < i ==> es[j].0 != k
  {
    if es == [] then 0
    else if es[0].0 == k then 0
    else 1 + IndexOf(es[1..], k)
  }

  /** Lookup of `k` in a mapping (`obj[k]`); `None` when the key is absent. */
  function Get(es: seq<(string, Value)>, k: string): Option<Value>
  {
    var i := IndexOf(es, k);
    if i < |es| then Some(es[i].1) else None
  }

  /** A lookup succeeds exactly for the keys of the mapping, and yields the
      value stored with the key. */
  lemma GetSpec(es: seq<(string, Value)>, k: string)
    ensures Get(es, k).Some? <==> k in Keys(es)
    ensures Get(es, k).Some? ==> (k, Get(es, k).value) in es
    ensures DistinctKeys(es) ==> forall i :: 0 <= i < |es| && es[i].0 == k ==> Get(es, k) == Some(es[i].1)
  {
    var i := IndexOf(es, k);
    if i < |es| {
      assert Keys(es)[i] == k;
      assert es[i] == (k, es[i].1);
    }
    if k in Keys(es) {
      var m :| 0 <= m < |es| && Keys(es)[m] == k;
      assert es[m].0 == k;
    }
  }

  lemma IndexOfUnique(es: seq<(string, Value)>, k: string, j: nat)
    requires j <= |es| && (j < |es| ==> es[j].0 == k)
    requires forall m :: 0 <= m < j ==> es[m].0 != k
    ensures IndexOf(es, k) == j
  {
  }

  /** Assignment `obj[k] = v`: `k` now maps to `v`, every other key keeps
      its value, and every entry is either the new one or the old entry at
      the same position. */
  function Put(es: seq<(string, Value)>, k: string, v: Value): (r: seq<(string, Value)>)
    ensures Get(r, k) == Some(v)
    ensures forall k' :: k' != k ==> Get(r, k') == Get(es, k')
    ensures forall i :: 0 <= i < |r| ==> r[i] == (k, v) || (i < |es| && r[i] == es[i])
    ensures DistinctKeys(es) ==> DistinctKeys(r)
  {
    var i := IndexOf(es, k);
    var r := if i < |es| then es[i := (k, v)] else es + [(k, v)];
    assert forall m :: 0 <= m < |r| ==> r[m] == (if m == i then (k, v) else es[m]);
    IndexOfUnique(r, k, i);
    forall k' | k' != k ensures Get(r, k') == Get(es, k') {
      var j := IndexOf(es, k');
      if j < |es| {
        IndexOfUnique(r, k', j);
      } else {
        IndexOfUnique(r, k', |r|);
      }
    }
    r
  }

  /** An existing key keeps its position; a new key goes last. */
  lemma PutKeys(es: seq<(string, Value)>, k: string, v: Value)
    ensures Keys(Put(es, k, v)) == if k in Keys(es) then Keys(es) else Keys(es) + [k]
  {
    var i := IndexOf(es, k);
    GetSpec(es, k);
    var r := Put(es, k, v);
    assert |r| == (if i < |es| then |es| else |es| + 1);
    assert forall m :: 0 <= m < |r| ==> r[m] == (if m == i then (k, v) else es[m]);
  }

  /** The value reached from `v` by following the names of `path` through
      mappings, if any. */
  function At(v: Value, path: seq<string>): Option<Value>
    decreases path
  {
    if path == [] then Some(v)
    else if !v.Dict? then None
    else match Get(v.entries, path[0])
      case None => None
      case Some(c) => At(c, path[1..])
  }

  predicate IsDirAt(v: Value, path: seq<string>)
  {
    At(v, path).Some? && At(v, path).value.Dict?
  }

  /** `q` and `p` differ at some position both have. */
  predicate Diverges(q: seq<string>, p: seq<string>)
  {
    exists i :: 0 <= i < |q| && i < |p| && q[i] != p[i]
  }

  /** The update `parent[k] = c` where `parent` is the mapping at `path`. */
  function InsertAt(v: Value, path: seq<string>, k: string, c: Value): (r: Value)
    requires IsDirAt(v, path)
    ensures r.Dict?
    decreases path
  {
    if path == [] then Dict(Put(v.entries, k, c))
    else
      var child := Get(v.entries, path[0]).value;
      Dict(Put(v.entries, path[0], InsertAt(child, path[1..], k, c)))
  }

  lemma {:induction false} InsertAtTarget(v: Value, path: seq<string>, k: string, c: Value)
    requires IsDirAt(v, path)
    ensures At(InsertAt(v, path, k, c), path + [k]) == Some(c)
    decreases path
  {
    if path == [] {
      assert path + [k] == [k];
    } else {
      var child := Get(v.entries, path[0]).value;
      InsertAtTarget(child, path[1..], k, c);
      assert (path + [k])[1..] == path[1..] + [k];
    }
  }

  lemma {:induction false} InsertAtAncestors(v: Value, path: seq<string>, k: string, c: Value, n: nat)
    requires IsDirAt(v, path) && n <= |path|
    ensures IsDirAt(InsertAt(v, path, k, c), path[..n])
    decreases path
  {
    if n > 0 {
      var child := Get(v.entries, path[0]).value;
      var sub := InsertAt(child, path[1..], k, c);
      InsertAtAncestors(child, path[1..], k, c, n - 1);
      var r := InsertAt(v, path, k, c);
      assert r == Dict(Put(v.entries, path[0], sub));
      assert Get(r.entries, path[0]) == Some(sub);
      assert path[..n][0] == path[0];
      assert path[..n][1..] == path[1..][..n - 1];
      assert At(r, path[..n]) == At(sub, path[1..][..n - 1]);
    }
  }

  lemma {:induction false} InsertAtElsewhere(v: Value, path: seq<string>, k: string, c: Value, q: seq<string>)
    requires IsDirAt(v, path) && Diverges(q, path + [k])
    ensures At(InsertAt(v, path, k, c), q) == At(v, q)
    decreases path
  {
    var i :| 0 <= i < |q| && i < |path + [k]| && q[i] != (path + [k])[i];
    if path != [] && q[0] == path[0] {
      var child := Get(v.entries, path[0]).value;
      assert q[1..][i - 1] != (path[1..] + [k])[i - 1];
      InsertAtElsewhere(child, path[1..], k, c, q[1..]);
    }
  }

  lemma {:induction false} InsertAtPreserves(v: Value, path: seq<string>, k: string, c: Value, ok: string -> bool)
    requires IsDirAt(v, path)
    requires WellFormed(v) && WellFormed(c)
    requires AllKeys(v, ok) && AllKeys(c, ok) && ok(k)
    requires Plain(v) && Plain(c)
    ensures WellFormed(InsertAt(v, path, k, c))
    ensures AllKeys(InsertAt(v, path, k, c), ok)
    ensures Plain(InsertAt(v, path, k, c))
    decreases path
  {
    if path != [] {
      var child := Get(v.entries, path[0]).value;
      InsertAtPreserves(child, path[1..], k, c, ok);
    }
  }

  /** Every key reachable through mappings, in pre-order (a key before the
      keys below it, siblings in insertion order), with its path and value. */
  function Preorder(v: Value): seq<(seq<string>, Value)>
  {
    if v.Dict? then PreorderFrom(v, 0, []) else []
  }

  function PreorderFrom(d: Value, i: nat, prefix: seq<string>): seq<(seq<string>, Value)>
    requires d.Dict? && i <= |d.entries|
    decreases d, |d.entries| - i
  {
    if i == |d.entries| then []
    else
      var k := d.entries[i].0;
      var v := d.entries[i].1;
      [(prefix + [k], v)]
      + (if v.Dict? then PreorderFrom(v, 0, prefix + [k]) else [])
      + PreorderFrom(d, i + 1, prefix)
  }

  /** Every entry listed from index `i` on is a reachable path whose first
      name is a key at index `i` or later, paired with its value. */
  lemma {:induction false} PreorderFromSound(d: Value, i: nat, prefix: seq<string>, p: seq<string>, x: Value)
    requires d.Dict? && i <= |d.entries| && WellFormed(d)
    requires (p, x) in PreorderFrom(d, i, prefix)
    ensures |p| > |prefix| && p[..|prefix|] == prefix
    ensures i <= IndexOf(d.entries, p[|prefix|]) < |d.entries|
    ensures At(d, p[|prefix|..]) == Some(x)
    decreases d, |d.entries| - i
  {
    var es := d.entries;
    var k := es[i].0;
    var v := es[i].1;
    var here := prefix + [k];
    var below := if v.Dict? then PreorderFrom(v, 0, here) else [];
    var rest := PreorderFrom(d, i + 1, prefix);
    assert PreorderFrom(d, i, prefix) == [(here, v)] + below + rest;
    IndexOfUnique(es, k, i);
    if (p, x) in rest {
      PreorderFromSound(d, i + 1, prefix, p, x);
    } else if (p, x) in below {
      PreorderFromSound(v, 0, here, p, x);
      var q := p[|here|..];
      assert p == here + q;
      assert p[|prefix|..] == [k] + q;
      assert p[..|prefix|] == prefix;
    } else {
      assert p == here && x == v;
      assert p[|prefix|..] == [k];
    }
  }

  /** Conversely, every such reachable path is listed from index `i` on. */
  lemma {:induction false} PreorderFromComplete(d: Value, i: nat, prefix: seq<string>, p: seq<string>, x: Value)
    requires d.Dict? && i <= |d.entries| && WellFormed(d)
    requires |p| > |prefix| && p[..|prefix|] == prefix
    requires i <= IndexOf(d.entries, p[|prefix|]) < |d.entries|
    requires At(d, p[|prefix|..]) == Some(x)
    ensures (p, x) in PreorderFrom(d, i, prefix)
    decreases d, |d.entries| - i, 1
  {
    var es := d.entries;
    var k := es[i].0;
    var v := es[i].1;
    var here := prefix + [k];
    var below := if v.Dict? then PreorderFrom(v, 0, here) else [];
    var rest := PreorderFrom(d, i + 1, prefix);
    assert PreorderFrom(d, i, prefix) == [(here, v)] + below + rest;
    if IndexOf(es, p[|prefix|]) > i {
      PreorderFromComplete(d, i + 1, prefix, p, x);
    } else {
      CompleteAt(d, i, prefix, p, x);
    }
  }

  /** A reachable path through the entry at index `i` itself is listed
      with that entry: as the entry, or among the entries below it. */
  lemma {:induction false} CompleteAt(d: Value, i: nat, prefix: seq<string>, p: seq<string>, x: Value)
    requires d.Dict? && i < |d.entries| && WellFormed(d)
    requires |p| > |prefix| && p[..|prefix|] == prefix
    requires IndexOf(d.entries, p[|prefix|]) == i
    requires At(d, p[|prefix|..]) == Some(x)
    ensures var here := prefix + [d.entries[i].0];
      if |p| == |here| then p == here && x == d.entries[i].1
      else d.entries[i].1.Dict? && (p, x) in PreorderFrom(d.entries[i].1, 0, here)
    decreases d, |d.entries| - i, 0
  {
    var es := d.entries;
    var k := es[i].0;
    var v := es[i].1;
    var here := prefix + [k];
    var q := p[|prefix|..];
    assert q[0] == k;
    assert Get(es, k) == Some(v);
    assert At(d, q) == At(v, q[1..]);
    if |q| == 1 {
      assert p == prefix + q;
    } else {
      assert p == here + q[1..];
      assert p[..|here|] == here && p[|here|..] == q[1..];
      assert v.Dict?;
      assert Get(v.entries, q[1..][0]).Some?;
      PreorderFromComplete(v, 0, here, p, x);
    }
  }

  /** `Preorder` lists exactly the reachable keys, each with its value. */
  lemma PreorderExact(v: Value, p: seq<string>, x: Value)
    requires v.Dict? && WellFormed(v)
    ensures (p, x) in Preorder(v) <==> |p| > 0 && At(v, p) == Some(x)
  {
    assert p[..0] == [] && p[0..] == p;
    if (p, x) in Preorder(v) {
      PreorderFromSound(v, 0, [], p, x);
    }
    if |p| > 0 && At(v, p) == Some(x) {
      assert Get(v.entries, p[0]).Some?;
      PreorderFromComplete(v, 0, [], p, x);
    }
  }
}
