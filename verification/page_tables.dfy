/** The tree of page tables as it lies in physical memory, and what one table write does to it.
    Nothing here allocates: these are the laws that map, unmap and clone rest on. */
module PageTables {
  import opened Options
  import opened Words

  // Physical memory, frame by frame, each frame read as 512 words.
  type Table = t: seq<bv64> | |t| == 512 witness ZeroTable()
  type Memory = m: seq<Table> | |m| == 0x1000_0000 witness seq(0x1000_0000, _ => ZeroTable())

  function ZeroTable(): (t: seq<bv64>)
    ensures |t| == 512
  {
    seq(512, _ => 0)
  }

  function Put(m: Memory, f: Frame, i: Index, w: bv64): Memory {
    m[f := m[f][i := w]]
  }

  predicate Blank(t: Table) {
    forall i: Index :: !Present(t[i])
  }

  // ---------- Paths ----------

  /** A position in the tree: the indices that lead to it, the last one outermost.
      A path of depth 0 to 3 names a table, one of depth 2 to 4 names a page. */
  datatype Path = Root | Sub(parent: Path, idx: Index)

  function Depth(p: Path): nat {
    match p
    case Root => 0
    case Sub(q, _) => Depth(q) + 1
  }

  /** q is p or lies below it. */
  predicate Under(q: Path, p: Path) {
    q == p || (q.Sub? && Under(q.parent, p))
  }

  lemma {:induction false} UnderDepth(q: Path, p: Path)
    requires Under(q, p)
    ensures Depth(p) <= Depth(q)
    ensures Depth(p) == Depth(q) ==> p == q
  {
    if q != p {
      UnderDepth(q.parent, p);
    }
  }

  lemma {:induction false} UnderTransitive(r: Path, q: Path, p: Path)
    requires Under(r, q) && Under(q, p)
    ensures Under(r, p)
  {
    if r != q {
      UnderTransitive(r.parent, q, p);
    }
  }

  /** Below p there is exactly one branch towards each path. */
  lemma {:induction false} Branch(q: Path, p: Path) returns (i: Index)
    requires Under(q, p) && q != p
    ensures Under(q, Sub(p, i))
  {
    if q.parent == p {
      i := q.idx;
    } else {
      i := Branch(q.parent, p);
    }
  }

  lemma {:induction false} BranchUnique(q: Path, p: Path, i: Index, j: Index)
    requires Under(q, Sub(p, i)) && Under(q, Sub(p, j))
    ensures i == j
  {
    if q == Sub(p, i) {
      UnderDepth(q, Sub(p, j));
    } else if q == Sub(p, j) {
      UnderDepth(q, Sub(p, i));
    } else {
      BranchUnique(q.parent, p, i, j);
    }
  }

  // ---------- The tree ----------

  // What an entry is depends on the depth of its table: the PML4 holds pointers only,
  // a PT holds pages only, and in between the page_size bit decides.
  predicate IsPointer(w: bv64, depth: nat) {
    Present(w) && (depth == 0 || (depth < 3 && !Large(w)))
  }

  predicate IsLeaf(w: bv64, depth: nat) {
    Present(w) && (depth == 3 || (0 < depth < 3 && Large(w)))
  }

  /** The frame of the table at p, if the entries along p lead there. */
  function TableAt(m: Memory, root: Frame, p: Path): Option<Frame> {
    match p
    case Root => Some(root)
    case Sub(q, i) =>
      match TableAt(m, root, q)
      case None => None
      case Some(f) => if IsPointer(m[f][i], Depth(q)) then Some(Target(m[f][i])) else None
  }

  /** The word of the page at s, if there is one. This is the meaning of a tree. */
  function LeafAt(m: Memory, root: Frame, s: Path): Option<bv64> {
    match s
    case Root => None
    case Sub(q, i) =>
      match TableAt(m, root, q)
      case None => None
      case Some(f) => if IsLeaf(m[f][i], Depth(q)) then Some(m[f][i]) else None
  }

  lemma {:induction false} RootTable(m: Memory, root: Frame)
    ensures TableAt(m, root, Root) == Some(root) && LeafAt(m, root, Root) == None && Depth(Root) == 0
  {
  }

  ghost predicate IsTable(m: Memory, root: Frame, f: Frame) {
    exists p :: TableAt(m, root, p) == Some(f)
  }

  ghost function Tables(m: Memory, root: Frame): set<nat> {
    set f: Frame | f < 0x1000_0000 && IsTable(m, root, f)
  }

  lemma {:induction false} InTables(m: Memory, root: Frame, p: Path)
    requires TableAt(m, root, p).Some?
    ensures IsTable(m, root, TableAt(m, root, p).value) && TableAt(m, root, p).value in Tables(m, root)
  {
  }

  /** The tables form a tree: no frame is reached along two paths. */
  ghost predicate IsTree(m: Memory, root: Frame) {
    forall p, q :: TableAt(m, root, p).Some? && TableAt(m, root, p) == TableAt(m, root, q) ==> p == q
  }

  /** Every table but the root holds a present entry. */
  ghost predicate Populated(m: Memory, root: Frame) {
    forall p :: p != Root && TableAt(m, root, p).Some? ==> !Blank(m[TableAt(m, root, p).value])
  }

  ghost predicate SameTables(m: Memory, root: Frame, m': Memory, root': Frame) {
    forall p :: TableAt(m, root, p) == TableAt(m', root', p)
  }

  ghost predicate SameLeaves(m: Memory, root: Frame, m': Memory, root': Frame) {
    forall s :: LeafAt(m, root, s) == LeafAt(m', root', s)
  }

  lemma {:induction false} AncestorTable(m: Memory, root: Frame, q: Path, p: Path)
    requires TableAt(m, root, q).Some? && Under(q, p)
    ensures TableAt(m, root, p).Some?
  {
    if q != p {
      AncestorTable(m, root, q.parent, p);
    }
  }

  lemma {:induction false} TableDepth(m: Memory, root: Frame, p: Path)
    requires TableAt(m, root, p).Some?
    ensures Depth(p) <= 3
  {
    if p != Root {
      TableDepth(m, root, p.parent);
    }
  }

  /** In a populated tree every table below the root has a page below it. */
  lemma {:induction false} LeafBelow(m: Memory, root: Frame, p: Path) returns (s: Path)
    requires Populated(m, root) && p != Root && TableAt(m, root, p).Some?
    ensures Under(s, p) && s != p && LeafAt(m, root, s).Some?
    decreases 3 - Depth(p)
  {
    TableDepth(m, root, p);
    var f := TableAt(m, root, p).value;
    var i: Index :| Present(m[f][i]);
    s := Sub(p, i);
    if IsPointer(m[f][i], Depth(p)) {
      s := LeafBelow(m, root, Sub(p, i));
      UnderTransitive(s, Sub(p, i), p);
      UnderDepth(s, Sub(p, i));
    }
  }

  /** So the pages of a populated tree determine its tables: p is a table exactly when
      some page lies below it. */
  lemma {:induction false} TableIffLeafBelow(m: Memory, root: Frame, p: Path)
    requires Populated(m, root) && p != Root
    ensures TableAt(m, root, p).Some? <==> exists s :: Under(s, p) && s != p && LeafAt(m, root, s).Some?
  {
    if TableAt(m, root, p).Some? {
      var s := LeafBelow(m, root, p);
    } else if s :| Under(s, p) && s != p && LeafAt(m, root, s).Some? {
      AncestorTable(m, root, s.parent, p);
    }
  }

  // ---------- Writes elsewhere ----------

  lemma {:induction false} TableElsewhere(m: Memory, m': Memory, root: Frame, p: Path)
    requires forall f: Frame :: IsTable(m, root, f) ==> m'[f] == m[f]
    ensures TableAt(m', root, p) == TableAt(m, root, p)
  {
    if p != Root {
      TableElsewhere(m, m', root, p.parent);
    }
  }

  /** A memory that agrees on the tables of a tree holds the same tree. */
  lemma {:induction false} WriteElsewhere(m: Memory, m': Memory, root: Frame)
    requires forall f: Frame :: IsTable(m, root, f) ==> m'[f] == m[f]
    ensures SameTables(m', root, m, root)
    ensures SameLeaves(m', root, m, root)
    ensures Tables(m', root) == Tables(m, root)
    ensures IsTree(m, root) ==> IsTree(m', root)
    ensures Populated(m, root) ==> Populated(m', root)
  {
    hide Present, Large, Target;
    forall p ensures TableAt(m', root, p) == TableAt(m, root, p) {
      TableElsewhere(m, m', root, p);
    }
    forall f: Frame ensures IsTable(m', root, f) == IsTable(m, root, f) {
    }
  }

  // ---------- One write to a table of the tree ----------

  lemma {:induction false} WriteAway(m: Memory, root: Frame, p: Path, i: Index, w: bv64, q: Path)
    requires IsTree(m, root) && TableAt(m, root, p).Some?
    requires !Under(q, Sub(p, i))
    ensures TableAt(Put(m, TableAt(m, root, p).value, i, w), root, q) == TableAt(m, root, q)
  {
    if q != Root {
      WriteAway(m, root, p, i, w, q.parent);
    }
  }

  lemma {:induction false} NothingBelow(m: Memory, root: Frame, p: Path, q: Path)
    requires Under(q, p) && TableAt(m, root, p).None?
    ensures TableAt(m, root, q).None?
  {
    if q != p {
      NothingBelow(m, root, p, q.parent);
    }
  }

  lemma {:induction false} BlankBelow(m: Memory, root: Frame, p: Path, q: Path)
    requires Under(q, p) && q != p && TableAt(m, root, p).Some? && Blank(m[TableAt(m, root, p).value])
    ensures TableAt(m, root, q).None?
  {
    if q.parent != p {
      BlankBelow(m, root, p, q.parent);
    }
  }

  /** Writing a word that is no pointer over one that is none: no table moves, and the
      page at that place becomes what the word says. */
  lemma {:induction false} WriteLeaf(m: Memory, root: Frame, p: Path, i: Index, w: bv64)
    requires IsTree(m, root) && TableAt(m, root, p).Some?
    requires !IsPointer(m[TableAt(m, root, p).value][i], Depth(p)) && !IsPointer(w, Depth(p))
    ensures var m' := Put(m, TableAt(m, root, p).value, i, w);
            && SameTables(m', root, m, root)
            && Tables(m', root) == Tables(m, root)
            && IsTree(m', root)
            && forall s :: LeafAt(m', root, s) ==
                 if s == Sub(p, i) then (if IsLeaf(w, Depth(p)) then Some(w) else None) else LeafAt(m, root, s)
  {
    hide Present, Large, Target;
    var f := TableAt(m, root, p).value;
    var m' := Put(m, f, i, w);
    PathNotBelowChild(p, i);
    WriteAway(m, root, p, i, w, p);
    forall q ensures TableAt(m', root, q) == TableAt(m, root, q) {
      if Under(q, Sub(p, i)) {
        NothingBelow(m, root, Sub(p, i), q);
        NothingBelow(m', root, Sub(p, i), q);
      } else {
        WriteAway(m, root, p, i, w, q);
      }
    }
    forall f: Frame ensures IsTable(m', root, f) == IsTable(m, root, f) {
    }
  }

  lemma {:induction false} PathNotBelowChild(p: Path, i: Index)
    ensures !Under(p, Sub(p, i))
  {
    if Under(p, Sub(p, i)) {
      UnderDepth(p, Sub(p, i));
    }
  }

  /** Hooking a blank frame that is no table yet into an empty entry adds that one table
      and no page. */
  lemma {:induction false} LinkTable(m: Memory, root: Frame, p: Path, i: Index, w: bv64)
    requires IsTree(m, root) && TableAt(m, root, p).Some?
    requires !Present(m[TableAt(m, root, p).value][i])
    requires IsPointer(w, Depth(p)) && Blank(m[Target(w)]) && !IsTable(m, root, Target(w))
    ensures var m' := Put(m, TableAt(m, root, p).value, i, w);
            && (forall q :: TableAt(m', root, q) == if q == Sub(p, i) then Some(Target(w)) else TableAt(m, root, q))
            && Tables(m', root) == Tables(m, root) + {Target(w)}
            && IsTree(m', root)
            && SameLeaves(m', root, m, root)
  {
    hide Present, Large, Target;
    var m' := Put(m, TableAt(m, root, p).value, i, w);
    var n := Target(w);
    LinkedPaths(m, root, p, i, w);
    LinkedLeaves(m, root, p, i, w);
    hide TableAt, LeafAt, Blank;
    forall g: Frame ensures IsTable(m', root, g) <==> g == n || IsTable(m, root, g) {
      if g == n {
        assert TableAt(m', root, Sub(p, i)) == Some(g);
      } else if IsTable(m, root, g) {
        var q :| TableAt(m, root, q) == Some(g);
        assert TableAt(m', root, q) == Some(g);
      }
    }
  }

  lemma {:induction false} LinkedPaths(m: Memory, root: Frame, p: Path, i: Index, w: bv64)
    requires IsTree(m, root) && TableAt(m, root, p).Some?
    requires !Present(m[TableAt(m, root, p).value][i])
    requires IsPointer(w, Depth(p)) && Blank(m[Target(w)]) && !IsTable(m, root, Target(w))
    ensures var m' := Put(m, TableAt(m, root, p).value, i, w);
            && m'[Target(w)] == m[Target(w)] && TableAt(m, root, Sub(p, i)).None?
            && forall q :: TableAt(m', root, q) == if q == Sub(p, i) then Some(Target(w)) else TableAt(m, root, q)
  {
    hide Present, Large, Target;
    var m' := Put(m, TableAt(m, root, p).value, i, w);
    PathNotBelowChild(p, i);
    WriteAway(m, root, p, i, w, p);
    assert TableAt(m', root, Sub(p, i)) == Some(Target(w));
    hide IsTree, IsTable;
    forall q ensures TableAt(m', root, q) == if q == Sub(p, i) then Some(Target(w)) else TableAt(m, root, q) {
      if !Under(q, Sub(p, i)) {
        WriteAway(m, root, p, i, w, q);
      } else if q != Sub(p, i) {
        NothingBelow(m, root, Sub(p, i), q);
        BlankBelow(m', root, Sub(p, i), q);
      }
    }
  }

  lemma {:induction false} LinkedLeaves(m: Memory, root: Frame, p: Path, i: Index, w: bv64)
    requires IsTree(m, root) && TableAt(m, root, p).Some?
    requires !Present(m[TableAt(m, root, p).value][i])
    requires IsPointer(w, Depth(p)) && Blank(m[Target(w)]) && !IsTable(m, root, Target(w))
    ensures SameLeaves(Put(m, TableAt(m, root, p).value, i, w), root, m, root)
  {
    hide Present, Large, Target;
    LinkedPaths(m, root, p, i, w);
    hide TableAt;
  }

  /** Clearing the entry of a blank table removes that one table and no page. */
  lemma {:induction false} UnlinkTable(m: Memory, root: Frame, p: Path, i: Index, w: bv64)
    requires IsTree(m, root) && TableAt(m, root, p).Some?
    requires TableAt(m, root, Sub(p, i)).Some? && Blank(m[TableAt(m, root, Sub(p, i)).value])
    requires !Present(w)
    ensures var m' := Put(m, TableAt(m, root, p).value, i, w);
            && (forall q :: TableAt(m', root, q) == if q == Sub(p, i) then None else TableAt(m, root, q))
            && Tables(m', root) == Tables(m, root) - {TableAt(m, root, Sub(p, i)).value}
            && IsTree(m', root)
            && SameLeaves(m', root, m, root)
  {
    hide Present, Large, Target;
    var n := TableAt(m, root, Sub(p, i)).value;
    var m' := Put(m, TableAt(m, root, p).value, i, w);
    UnlinkedPaths(m, root, p, i, w);
    UnlinkedLeaves(m, root, p, i, w);
    hide TableAt, LeafAt, Blank;
    forall g: Frame ensures IsTable(m', root, g) <==> g != n && IsTable(m, root, g) {
      if IsTable(m, root, g) && g != n {
        var q :| TableAt(m, root, q) == Some(g);
        assert TableAt(m', root, q) == Some(g);
      }
    }
  }

  lemma {:induction false} UnlinkedPaths(m: Memory, root: Frame, p: Path, i: Index, w: bv64)
    requires IsTree(m, root) && TableAt(m, root, p).Some?
    requires TableAt(m, root, Sub(p, i)).Some? && Blank(m[TableAt(m, root, Sub(p, i)).value])
    requires !Present(w)
    ensures var m' := Put(m, TableAt(m, root, p).value, i, w);
            forall q :: TableAt(m', root, q) == if q == Sub(p, i) then None else TableAt(m, root, q)
  {
    hide Present, Large, Target;
    var m' := Put(m, TableAt(m, root, p).value, i, w);
    PathNotBelowChild(p, i);
    WriteAway(m, root, p, i, w, p);
    assert TableAt(m', root, Sub(p, i)).None?;
    hide IsTree;
    forall q ensures TableAt(m', root, q) == if q == Sub(p, i) then None else TableAt(m, root, q) {
      if !Under(q, Sub(p, i)) {
        WriteAway(m, root, p, i, w, q);
      } else {
        NothingBelow(m', root, Sub(p, i), q);
        if q != Sub(p, i) {
          BlankBelow(m, root, Sub(p, i), q);
        }
      }
    }
  }

  lemma {:induction false} UnlinkedLeaves(m: Memory, root: Frame, p: Path, i: Index, w: bv64)
    requires IsTree(m, root) && TableAt(m, root, p).Some?
    requires TableAt(m, root, Sub(p, i)).Some? && Blank(m[TableAt(m, root, Sub(p, i)).value])
    requires !Present(w)
    ensures SameLeaves(Put(m, TableAt(m, root, p).value, i, w), root, m, root)
  {
    UnlinkedPaths(m, root, p, i, w);
    assert IsPointer(m[TableAt(m, root, p).value][i], Depth(p));
    hide Present, Large, Target, TableAt;
  }
}
