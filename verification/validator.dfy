/** The structure validator: every name that holds a character Windows does
    not allow in file names is reported, with the path leading to it.

    Only mappings are walked: the children of a list, and strings or other
    scalars, are never looked at. */
module Validator {
  import opened Tree

  /** The characters of the pattern `[<>:"|?*]`. */
  const Reserved: set<char> := {'<', '>', ':', '"', '|', '?', '*'}

  const Prefix: string := "Invalid characters in name: "

  predicate HasReserved(k: string)
  {
    exists m :: 0 <= m < |k| && k[m] in Reserved
  }

  /** The path handed down to a folder's children: the key alone at the top,
      otherwise the parent's path, a slash and the key. */
  function NewPath(cur: string, key: string): string
  {
    if cur == "" then key else cur + "/" + key
  }

  /** The message for `key` reached through `cur`. */
  function Issue(cur: string, key: string): string
  {
    Prefix + cur + "/" + key
  }

  /** The issues for the entries of mapping `d` from index `i` on, each key
      checked before the keys inside it, siblings in order. The message
      always puts a slash between the current path and the key, so a bad
      top-level key is reported as `/key`. */
  function ValidateFrom(d: Value, i: nat, cur: string): seq<string>
    requires d.Dict? && i <= |d.entries|
    decreases d, |d.entries| - i
  {
    if i == |d.entries| then []
    else
      var k := d.entries[i].0;
      var v := d.entries[i].1;
      (if HasReserved(k) then [Issue(cur, k)] else [])
      + (if v.Dict? then ValidateFrom(v, 0, NewPath(cur, k)) else [])
      + ValidateFrom(d, i + 1, cur)
  }

  /** `validate_structure`: nothing is reported for a structure that is not
      a mapping. */
  function Validate(v: Value): seq<string>
  {
    if v.Dict? then ValidateFrom(v, 0, "") else []
  }

  /** The message always puts a slash before the key, so a bad top-level
      name is reported with a leading slash although the path handed to its
      children has none; a bad name inside a list is never reported. */
  lemma TopLevelMessage()
    ensures Validate(Dict([("a:b", Dict([("c?", Null)]))])) ==
      ["Invalid characters in name: /a:b", "Invalid characters in name: a:b/c?"]
    ensures Validate(Dict([("d", List([Dict([("e*", Null)])]))])) == []
  {
    var inner := Dict([("c?", Null)]);
    var outer := Dict([("a:b", inner)]);
    assert HasReserved("a:b") by { assert "a:b"[1] == ':'; }
    assert HasReserved("c?") by { assert "c?"[1] == '?'; }
    assert ValidateFrom(inner, 0, "a:b") == [Issue("a:b", "c?")] + [] + ValidateFrom(inner, 1, "a:b");
    assert ValidateFrom(outer, 0, "") == [Issue("", "a:b")] + ValidateFrom(inner, 0, "a:b") + ValidateFrom(outer, 1, "");
    assert Issue("", "a:b") == "Invalid characters in name: /a:b";
    assert Issue("a:b", "c?") == "Invalid characters in name: a:b/c?";
    var listed := Dict([("d", List([Dict([("e*", Null)])]))]);
    assert !HasReserved("d");
    assert ValidateFrom(listed, 0, "") == [] + [] + ValidateFrom(listed, 1, "");
  }

  // ---------------------------------------------------------------------
  // The same issues, described from the paths of the tree

  function Last(p: seq<string>): string
  {
    if p == [] then "" else p[|p| - 1]
  }

  /** The path the validator has built when it reaches the names `p`. */
  function DirText(p: seq<string>): string
  {
    if p == [] then "" else NewPath(DirText(p[..|p| - 1]), p[|p| - 1])
  }

  /** The message for the key at the end of `p`. */
  function IssueFor(p: seq<string>): string
  {
    if p == [] then Issue("", "") else Issue(DirText(p[..|p| - 1]), Last(p))
  }

  /** The messages for the listed paths whose last name is bad, in order. */
  function Reported(ps: seq<(seq<string>, Value)>): seq<string>
  {
    if ps == [] then []
    else (if HasReserved(Last(ps[0].0)) then [IssueFor(ps[0].0)] else []) + Reported(ps[1..])
  }

  lemma {:induction false} ReportedAppend(a: seq<(seq<string>, Value)>, b: seq<(seq<string>, Value)>)
    ensures Reported(a + b) == Reported(a) + Reported(b)
  {
    if a != [] {
      assert (a + b)[1..] == a[1..] + b;
      ReportedAppend(a[1..], b);
    } else {
      assert a + b == b;
    }
  }

  /** A message is reported exactly when some listed path ends in a bad name
      and the message is that path's. */
  lemma {:induction false} ReportedExact(ps: seq<(seq<string>, Value)>, s: string)
    ensures s in Reported(ps) <==> exists j :: 0 <= j < |ps| && HasReserved(Last(ps[j].0)) && s == IssueFor(ps[j].0)
  {
    if ps != [] {
      ReportedExact(ps[1..], s);
      if exists j :: 0 <= j < |ps| && HasReserved(Last(ps[j].0)) && s == IssueFor(ps[j].0) {
        var j :| 0 <= j < |ps| && HasReserved(Last(ps[j].0)) && s == IssueFor(ps[j].0);
        if j > 0 {
          assert ps[1..][j - 1] == ps[j];
        }
      }
      if s in Reported(ps[1..]) {
        var j :| 0 <= j < |ps| - 1 && HasReserved(Last(ps[1..][j].0)) && s == IssueFor(ps[1..][j].0);
        assert ps[j + 1] == ps[1..][j];
      }
    }
  }

  /** The validator reports, in pre-order, one message per bad key. */
  lemma {:induction false} ValidateFromPreorder(d: Value, i: nat, prefix: seq<string>)
    requires d.Dict? && i <= |d.entries|
    ensures ValidateFrom(d, i, DirText(prefix)) == Reported(PreorderFrom(d, i, prefix))
    decreases d, |d.entries| - i
  {
    if i < |d.entries| {
      var k := d.entries[i].0;
      var v := d.entries[i].1;
      var here := prefix + [k];
      var below := if v.Dict? then PreorderFrom(v, 0, here) else [];
      var rest := PreorderFrom(d, i + 1, prefix);
      EntryReported(prefix, k, v);
      if v.Dict? {
        ValidateFromPreorder(v, 0, here);
      }
      ValidateFromPreorder(d, i + 1, prefix);
      ReportedAppend([(here, v)] + below, rest);
      ReportedAppend([(here, v)], below);
    }
  }

  /** One entry's own contribution, and the path handed to its children. */
  lemma EntryReported(prefix: seq<string>, k: string, v: Value)
    ensures DirText(prefix + [k]) == NewPath(DirText(prefix), k)
    ensures Reported([(prefix + [k], v)]) == if HasReserved(k) then [Issue(DirText(prefix), k)] else []
  {
    var here := prefix + [k];
    assert here[..|here| - 1] == prefix;
  }

  lemma ValidatePreorder(v: Value)
    ensures Validate(v) == Reported(Preorder(v))
  {
    if v.Dict? {
      ValidateFromPreorder(v, 0, []);
    }
  }

  /** Every message names a reachable key holding a reserved character, and
      every such key is named by a message. */
  lemma ValidateExact(v: Value, s: string)
    requires WellFormed(v)
    ensures s in Validate(v) <==>
      exists p, x :: At(v, p) == Some(x) && |p| > 0 && HasReserved(Last(p)) && s == IssueFor(p)
  {
    if s in Validate(v) {
      var p, x := ValidateSound(v, s);
    }
    if exists p, x :: At(v, p) == Some(x) && |p| > 0 && HasReserved(Last(p)) && s == IssueFor(p) {
      var p, x :| At(v, p) == Some(x) && |p| > 0 && HasReserved(Last(p)) && s == IssueFor(p);
      ValidateComplete(v, p, x);
    }
  }

  lemma ValidateSound(v: Value, s: string) returns (p: seq<string>, x: Value)
    requires WellFormed(v) && s in Validate(v)
    ensures At(v, p) == Some(x) && |p| > 0 && HasReserved(Last(p)) && s == IssueFor(p)
  {
    ValidatePreorder(v);
    var ps := Preorder(v);
    ReportedExact(ps, s);
    var j :| 0 <= j < |ps| && HasReserved(Last(ps[j].0)) && s == IssueFor(ps[j].0);
    p, x := ps[j].0, ps[j].1;
    PreorderExact(v, p, x);
  }

  lemma ValidateComplete(v: Value, p: seq<string>, x: Value)
    requires WellFormed(v) && At(v, p) == Some(x) && |p| > 0 && HasReserved(Last(p))
    ensures IssueFor(p) in Validate(v)
  {
    ValidatePreorder(v);
    PreorderExact(v, p, x);
    var ps := Preorder(v);
    var j :| 0 <= j < |ps| && ps[j] == (p, x);
    ReportedExact(ps, IssueFor(p));
  }

  /** A structure passes exactly when no reachable key holds a reserved
      character. */
  lemma ValidateClean(v: Value)
    requires WellFormed(v)
    ensures Validate(v) == [] <==> forall p, x :: At(v, p) == Some(x) && |p| > 0 ==> !HasReserved(Last(p))
  {
    if Validate(v) != [] {
      ValidateExact(v, Validate(v)[0]);
    }
    if exists p, x :: At(v, p) == Some(x) && |p| > 0 && HasReserved(Last(p)) {
      var p, x :| At(v, p) == Some(x) && |p| > 0 && HasReserved(Last(p));
      ValidateExact(v, IssueFor(p));
    }
  }
}
