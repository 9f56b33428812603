/** Directory trees as the plugin code sees them. */
module FileTree {
  import opened Common

  /** `Special` stands for symbolic links, sockets, devices and the like. */
  datatype Tree =
    | Dir(children: map<string, Tree>)
    | File(content: Bytes)
    | Special

  const EMPTY: Tree := Dir(map[])

  /** `p` is `t` with some of the entries below it left out. */
  predicate PartOf(p: Tree, t: Tree)
  {
    match t
    case Dir(children) =>
      p.Dir? && forall name :: name in p.children ==> name in children && PartOf(p.children[name], children[name])
    case _ => p == t
  }

  /** `t'` is `t` without one entry: a file, a special entry or an empty directory somewhere below it. */
  ghost predicate OneFewer(t: Tree, t': Tree)
    decreases t, 1
  {
    && t.Dir? && t'.Dir?
    && exists name :: name in t.children && Shrinks(t, name, t')
  }

  /** The missing entry is `name` itself or lies below it. */
  ghost predicate Shrinks(t: Tree, name: string, t': Tree)
    requires t.Dir? && t'.Dir? && name in t.children
    decreases t, 0
  {
    var child := t.children[name];
    || (IsLeaf(child) && t'.children == t.children - {name})
    || (name in t'.children && OneFewer(child, t'.children[name])
        && t'.children == t.children[name := t'.children[name]])
  }

  predicate IsLeaf(t: Tree) { t.Dir? ==> t.children == map[] }

  lemma {:induction false} PartOfSelf(t: Tree)
    ensures PartOf(t, t)
  {
    if t.Dir? {
      forall name | name in t.children ensures PartOf(t.children[name], t.children[name]) {
        PartOfSelf(t.children[name]);
      }
    }
  }

  lemma {:induction false} PartOfTransitive(p: Tree, q: Tree, t: Tree)
    requires PartOf(p, q) && PartOf(q, t)
    ensures PartOf(p, t)
    decreases t
  {
    if t.Dir? {
      forall name | name in p.children ensures name in t.children && PartOf(p.children[name], t.children[name]) {
        PartOfTransitive(p.children[name], q.children[name], t.children[name]);
      }
    }
  }

  /** Losing an entry leaves a part. */
  lemma {:induction false} FewerIsPart(t: Tree, t': Tree, whole: Tree)
    requires OneFewer(t, t') && PartOf(t, whole)
    ensures PartOf(t', whole)
    decreases t
  {
    var name :| name in t.children && Shrinks(t, name, t');
    forall n | n in t'.children ensures n in whole.children && PartOf(t'.children[n], whole.children[n]) {
      if n == name {
        FewerIsPart(t.children[n], t'.children[n], whole.children[n]);
      } else {
        assert t'.children[n] == t.children[n];
      }
    }
  }

  // ---------- Chains of single losses ----------

  ghost predicate IsChain(ts: seq<Tree>, from: Tree, to: Tree)
  {
    && ts != [] && ts[0] == from && ts[|ts| - 1] == to
    && forall i :: 0 <= i < |ts| - 1 ==> OneFewer(ts[i], ts[i + 1])
  }

  lemma ChainJoin(a: seq<Tree>, b: seq<Tree>, from: Tree, mid: Tree, to: Tree) returns (c: seq<Tree>)
    requires IsChain(a, from, mid) && IsChain(b, mid, to)
    ensures IsChain(c, from, to)
  {
    hide OneFewer;
    c := a + b[1..];
    forall i | 0 <= i < |c| - 1 ensures OneFewer(c[i], c[i + 1]) {
      if i >= |a| - 1 {
        assert c[i] == b[i - |a| + 1] && c[i + 1] == b[i - |a| + 2];
      }
    }
  }

  function Lifted(m: map<string, Tree>, name: string, ts: seq<Tree>): (r: seq<Tree>)
    ensures |r| == |ts|
  {
    seq(|ts|, i requires 0 <= i < |ts| => Dir(m[name := ts[i]]))
  }

  /** A chain below one entry is a chain of the directory. */
  lemma LiftChain(m: map<string, Tree>, name: string, ts: seq<Tree>, from: Tree, to: Tree)
    requires IsChain(ts, from, to)
    ensures IsChain(Lifted(m, name, ts), Dir(m[name := from]), Dir(m[name := to]))
  {
    hide OneFewer;
    var r := Lifted(m, name, ts);
    forall i | 0 <= i < |r| - 1 ensures OneFewer(r[i], r[i + 1]) {
      LiftStep(m, name, ts[i], ts[i + 1]);
    }
  }

  lemma LiftStep(m: map<string, Tree>, name: string, t: Tree, t': Tree)
    requires OneFewer(t, t')
    ensures OneFewer(Dir(m[name := t]), Dir(m[name := t']))
  {
    assert m[name := t][name := t'] == m[name := t'];
    assert Shrinks(Dir(m[name := t]), name, Dir(m[name := t']));
  }

  /** `t` with the entries outside `todo` already as in `p`. */
  function Mixed(t: Tree, p: Tree, todo: set<string>): Tree
    requires t.Dir? && p.Dir? && todo <= t.children.Keys
  {
    Dir(map name | name in t.children && (name in todo || name in p.children) ::
          if name in todo then t.children[name] else p.children[name])
  }

  /** Every part of a tree is reached by losing one entry at a time. */
  lemma {:induction false} ChainToPart(t: Tree, p: Tree) returns (ts: seq<Tree>)
    requires PartOf(p, t)
    ensures IsChain(ts, t, p)
    decreases t, 1, 0
  {
    if t.Dir? {
      assert Mixed(t, p, t.children.Keys) == t;
      ts := ChainOver(t, p, t.children.Keys);
    } else {
      ts := [t];
    }
  }

  lemma {:induction false} ChainOver(t: Tree, p: Tree, todo: set<string>) returns (ts: seq<Tree>)
    requires t.Dir? && PartOf(p, t) && todo <= t.children.Keys
    ensures IsChain(ts, Mixed(t, p, todo), p)
    decreases t, 0, |todo|
  {
    hide OneFewer, IsChain;
    if todo == {} {
      assert Mixed(t, p, todo) == p;
      ts := [p];
      TrivialChain(p);
    } else {
      var name :| name in todo;
      var first := ChainAt(t, p, todo, name);
      var rest := ChainOver(t, p, todo - {name});
      ts := ChainJoin(first, rest, Mixed(t, p, todo), Mixed(t, p, todo - {name}), p);
    }
  }

  lemma TrivialChain(t: Tree)
    ensures IsChain([t], t, t)
  {
  }

  /** Brings one entry from `t` to `p`. */
  lemma {:induction false} ChainAt(t: Tree, p: Tree, todo: set<string>, name: string) returns (ts: seq<Tree>)
    requires t.Dir? && PartOf(p, t) && todo <= t.children.Keys && name in todo
    ensures IsChain(ts, Mixed(t, p, todo), Mixed(t, p, todo - {name}))
    decreases t, 0, 0
  {
    hide OneFewer, IsChain;
    var m, child := Mixed(t, p, todo).children, t.children[name];
    assert m[name := child] == m;
    var target := if name in p.children then p.children[name] else if child.Dir? then EMPTY else child;
    assert PartOf(target, child) by { PartOfSelf(child); }
    var below := ChainToPart(child, target);
    LiftChain(m, name, below, child, target);
    ts := Lifted(m, name, below);
    if name in p.children {
      assert m[name := target] == Mixed(t, p, todo - {name}).children;
    } else {
      var next := m[name := target];
      assert next - {name} == Mixed(t, p, todo - {name}).children;
      DropLeaf(next, name);
      ts := ChainJoin(ts, [Dir(next), Dir(next - {name})], Dir(m), Dir(next), Dir(next - {name}));
    }
  }

  lemma DropLeaf(m: map<string, Tree>, name: string)
    requires name in m && IsLeaf(m[name])
    ensures IsChain([Dir(m), Dir(m - {name})], Dir(m), Dir(m - {name}))
  {
    assert Shrinks(Dir(m), name, Dir(m - {name}));
    assert OneFewer(Dir(m), Dir(m - {name}));
  }
}
