/**
 * Copying a plugin tree under an entry, byte, file-size and depth budget (src/plugins.rs).
 * A directory may be listed in any order: the copy picks the names one by one.
 */
module PluginCopy {
  import opened FileTree

  const MAX_ENTRIES: nat := 1024
  const MAX_TOTAL_BYTES: nat := 64 * 1024 * 1024
  const MAX_FILE_BYTES: nat := 16 * 1024 * 1024
  const MAX_DEPTH: nat := 16

  // ---------- What the limits measure ----------

  datatype Cost = Cost(entries: nat, bytes: nat)
  {
    function Plus(other: Cost): Cost { Cost(entries + other.entries, bytes + other.bytes) }
  }

  /** The entries below a tree and the bytes in its files. */
  ghost function CostOf(t: Tree): Cost
    decreases t, 1
  {
    match t
    case Dir(children) => CostIn(t, children.Keys)
    case File(content) => Cost(0, |content|)
    case Special => Cost(0, 0)
  }

  /** The cost of the named children of a directory. */
  ghost function CostIn(t: Tree, names: set<string>): Cost
    requires t.Dir? && names <= t.children.Keys
    decreases t, 0, |names|
  {
    if names == {} then Cost(0, 0) else
      var name :| name in names;
      CostOf(t.children[name]).Plus(Cost(1, 0)).Plus(CostIn(t, names - {name}))
  }

  ghost predicate NoSpecials(t: Tree)
  {
    !t.Special? && (t.Dir? ==> forall name :: name in t.children ==> NoSpecials(t.children[name]))
  }

  ghost predicate FilesWithin(t: Tree)
  {
    && (t.File? ==> |t.content| <= MAX_FILE_BYTES)
    && (t.Dir? ==> forall name :: name in t.children ==> FilesWithin(t.children[name]))
  }

  /** Directories are nested at most `n` deep below `t`. */
  ghost predicate NestedWithin(t: Tree, n: nat)
  {
    t.Dir? ==>
      forall name :: name in t.children && t.children[name].Dir? ==> n > 0 && NestedWithin(t.children[name], n - 1)
  }

  /** Which tree may be copied with `used` already spent, `depth` levels down. */
  ghost predicate Copyable(t: Tree, depth: nat, used: Cost)
    requires depth <= MAX_DEPTH
  {
    && NoSpecials(t) && FilesWithin(t) && NestedWithin(t, MAX_DEPTH - depth)
    && used.entries + CostOf(t).entries <= MAX_ENTRIES
    && used.bytes + CostOf(t).bytes <= MAX_TOTAL_BYTES
  }

  /** The sum does not depend on which child is counted first. */
  lemma {:induction false} CostPick(t: Tree, names: set<string>, name: string)
    requires t.Dir? && names <= t.children.Keys && name in names
    ensures CostIn(t, names) == CostOf(t.children[name]).Plus(Cost(1, 0)).Plus(CostIn(t, names - {name}))
    decreases |names|
  {
    hide CostOf;
    var first :| first in names
      && CostIn(t, names) == CostOf(t.children[first]).Plus(Cost(1, 0)).Plus(CostIn(t, names - {first}));
    var a, b := CostOf(t.children[first]), CostOf(t.children[name]);
    if first != name {
      var rest := names - {first} - {name};
      assert rest == names - {name} - {first};
      CostPick(t, names - {first}, name);
      CostPick(t, names - {name}, first);
      assert CostIn(t, names) == a.Plus(Cost(1, 0)).Plus(b.Plus(Cost(1, 0)).Plus(CostIn(t, rest)));
      assert CostIn(t, names) == b.Plus(Cost(1, 0)).Plus(a.Plus(Cost(1, 0)).Plus(CostIn(t, rest)));
    }
  }

  // ---------- Parts ----------

  ghost predicate AtMost(a: Cost, b: Cost) { a.entries <= b.entries && a.bytes <= b.bytes }

  /** Fewer children cost less. */
  lemma {:induction false} CostOfFewer(t: Tree, names: set<string>, all: set<string>)
    requires t.Dir? && names <= all <= t.children.Keys
    ensures AtMost(CostIn(t, names), CostIn(t, all))
    decreases |all|
  {
    hide CostOf, CostIn;
    if names != all {
      var name :| name in all && name !in names;
      CostPick(t, all, name);
      CostOfFewer(t, names, all - {name});
    }
  }

  /** A part costs no more than the whole. */
  lemma {:induction false} CostOfPart(p: Tree, t: Tree)
    requires PartOf(p, t)
    ensures AtMost(CostOf(p), CostOf(t))
    decreases t, 1, 0
  {
    hide CostIn;
    if t.Dir? {
      CostOfChildren(p, t, p.children.Keys);
      CostOfFewer(t, p.children.Keys, t.children.Keys);
    }
  }

  lemma {:induction false} CostOfChildren(p: Tree, t: Tree, names: set<string>)
    requires t.Dir? && PartOf(p, t) && names <= p.children.Keys
    ensures names <= t.children.Keys && AtMost(CostIn(p, names), CostIn(t, names))
    decreases t, 0, |names|
  {
    hide CostOf, CostIn;
    assert names <= t.children.Keys;
    if names == {} {
      CostOfDir(p);
      CostOfDir(t);
    } else {
      var name :| name in names;
      CostOfPart(p.children[name], t.children[name]);
      CostOfChildren(p, t, names - {name});
      CostPick(p, names, name);
      CostPick(t, names, name);
    }
  }

  lemma {:induction false} PartIsAllowed(p: Tree, t: Tree, depth: nat)
    requires PartOf(p, t) && NoSpecials(t) && FilesWithin(t) && NestedWithin(t, depth)
    ensures NoSpecials(p) && FilesWithin(p) && NestedWithin(p, depth)
    decreases t
  {
    if t.Dir? {
      forall name | name in p.children
        ensures NoSpecials(p.children[name]) && FilesWithin(p.children[name])
        ensures p.children[name].Dir? ==> depth > 0 && NestedWithin(p.children[name], depth - 1)
      {
        var q, u := p.children[name], t.children[name];
        assert u.Dir? == q.Dir?;
        PartIsAllowed(q, u, if u.Dir? then depth - 1 else 0);
      }
    }
  }

  /** Every part of a tree within the limits is within them. */
  lemma CopyablePart(p: Tree, t: Tree)
    requires PartOf(p, t) && Copyable(t, 0, Cost(0, 0))
    ensures Copyable(p, 0, Cost(0, 0))
  {
    hide PartOf, CostOf, NoSpecials, FilesWithin, NestedWithin;
    CostOfPart(p, t);
    PartIsAllowed(p, t, MAX_DEPTH);
  }

  // ---------- The copy ----------

  class PluginInstallBudget {
    var entries: nat
    var bytes: nat

    constructor ()
      ensures Used() == Cost(0, 0)
    {
      entries, bytes := 0, 0;
    }

    ghost function Used(): Cost
      reads this
    {
      Cost(entries, bytes)
    }

    method AdmitFile(size: nat) returns (ok: bool)
      modifies this`bytes
      ensures ok <==> size <= MAX_FILE_BYTES && old(bytes) + size <= MAX_TOTAL_BYTES
      ensures bytes == if ok then old(bytes) + size else old(bytes)
    {
      if size > MAX_FILE_BYTES {
        return false;
      }
      var nextBytes := bytes + size;
      if nextBytes > MAX_TOTAL_BYTES {
        return false;
      }
      bytes := nextBytes;
      return true;
    }
  }

  /** What is asked of one child of a directory that is `depth` levels down, apart from its cost. */
  ghost predicate ChildAllowed(child: Tree, depth: nat)
    requires depth <= MAX_DEPTH
  {
    && NoSpecials(child) && FilesWithin(child)
    && (child.Dir? ==> depth < MAX_DEPTH && NestedWithin(child, MAX_DEPTH - depth - 1))
  }

  lemma AllowedIff(t: Tree, depth: nat)
    requires t.Dir? && depth <= MAX_DEPTH
    ensures NoSpecials(t) && FilesWithin(t) && NestedWithin(t, MAX_DEPTH - depth)
       <==> forall name :: name in t.children ==> ChildAllowed(t.children[name], depth)
  {
    if forall name :: name in t.children ==> ChildAllowed(t.children[name], depth) {
      assert NoSpecials(t) && FilesWithin(t) && NestedWithin(t, MAX_DEPTH - depth);
    }
  }

  lemma CostOfDir(t: Tree)
    requires t.Dir?
    ensures CostOf(t) == CostIn(t, t.children.Keys) && CostIn(t, {}) == Cost(0, 0)
  {
  }

  /**
   * `copy_plugin_tree`, with no I/O errors.  The answer is a property of the source tree alone,
   * so no listing order can change it.
   */
  method CopyPluginTree(source: Tree, depth: nat, budget: PluginInstallBudget) returns (target: Tree, ok: bool)
    requires source.Dir? && depth <= MAX_DEPTH
    requires budget.entries <= MAX_ENTRIES && budget.bytes <= MAX_TOTAL_BYTES
    modifies budget
    ensures ok <==> Copyable(source, depth, old(budget.Used()))
    ensures ok ==> target == source && budget.Used() == old(budget.Used()).Plus(CostOf(source))
    decreases source, 0
  {
    hide CostOf, CostIn, ChildAllowed, NoSpecials, FilesWithin, NestedWithin;
    var remaining := source.children.Keys;
    var copied: map<string, Tree> := map[];
    CostOfDir(source);
    AllowedIff(source, depth);
    while remaining != {}
      invariant remaining <= source.children.Keys
      invariant copied == map name | name in source.children && name !in remaining :: source.children[name]
      invariant budget.Used().Plus(CostIn(source, remaining)) == old(budget.Used()).Plus(CostOf(source))
      invariant budget.entries <= MAX_ENTRIES && budget.bytes <= MAX_TOTAL_BYTES
      invariant forall name :: name in source.children && name !in remaining ==>
                  ChildAllowed(source.children[name], depth)
      decreases |remaining|
    {
      var name :| name in remaining;
      CostPick(source, remaining, name);
      var copy, admitted := CopyEntry(source.children[name], depth, budget);
      if !admitted {
        return Dir(copied), false;
      }
      copied := copied[name := copy];
      remaining := remaining - {name};
    }
    assert copied == source.children;
    return Dir(copied), true;
  }

  /** The body of the listing loop, for one directory entry. */
  method CopyEntry(child: Tree, depth: nat, budget: PluginInstallBudget) returns (copy: Tree, ok: bool)
    requires depth <= MAX_DEPTH
    requires budget.entries <= MAX_ENTRIES && budget.bytes <= MAX_TOTAL_BYTES
    modifies budget
    ensures ok <==>
            && ChildAllowed(child, depth)
            && old(budget.entries) + 1 + CostOf(child).entries <= MAX_ENTRIES
            && old(budget.bytes) + CostOf(child).bytes <= MAX_TOTAL_BYTES
    ensures ok ==> copy == child && budget.Used() == old(budget.Used()).Plus(Cost(1, 0)).Plus(CostOf(child))
    decreases child, 1
  {
    hide CostIn;
    copy, ok := child, false;
    budget.entries := budget.entries + 1;
    if budget.entries > MAX_ENTRIES {
      return;
    }
    match child {
      case Dir(_) =>
        if depth >= MAX_DEPTH {
          return;
        }
        copy, ok := CopyPluginTree(child, depth + 1, budget);
      case File(content) =>
        ok := budget.AdmitFile(|content|);
      case Special =>
    }
  }
}
