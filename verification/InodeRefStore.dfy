/** The store of inodes that wait for an asynchronous flush (toolkit/InodeRefStore.h), together with
    the number of references taken on each inode on behalf of the store. */
module InodeRefStore {
  import opened Basics

  /** An inode, identified by its address. */
  type Ino = nat

  /** Members of the store and the references counted for it. */
  datatype Refs = Refs(store: set<Ino>, held: map<Ino, int>)

  function Held(r: Refs, i: Ino): int {
    if i in r.held then r.held[i] else 0
  }

  function Ihold(r: Refs, i: Ino): Refs {
    r.(held := r.held[i := Held(r, i) + 1])
  }

  function Iput(r: Refs, i: Ino): Refs {
    r.(held := r.held[i := Held(r, i) - 1])
  }

  function AddAndReference(r: Refs, i: Ino): Refs {
    if i in r.store then r else Ihold(r.(store := r.store + {i}), i)
  }

  function AddOrPut(r: Refs, i: Ino): Refs {
    if i in r.store then Iput(r, i) else r.(store := r.store + {i})
  }

  function RemoveAndRelease(r: Refs, i: Ino): Refs {
    if i in r.store then Iput(r.(store := r.store - {i}), i) else r
  }

  /** References to the inode that the store does not account for: those in the hands of callers. */
  function Loose(r: Refs, i: Ino): int {
    Held(r, i) - if i in r.store then 1 else 0
  }

  /** Adding and removing keep the store's one reference per member and touch no caller's reference;
      giving an inode back takes over exactly the caller's one, whether it was a member or not. */
  lemma StoreHoldsOneEach(r: Refs, i: Ino, j: Ino)
    ensures Loose(AddAndReference(r, i), j) == Loose(r, j)
    ensures Loose(RemoveAndRelease(r, i), j) == Loose(r, j)
    ensures Loose(AddOrPut(r, i), j) == Loose(r, j) - if j == i then 1 else 0
    ensures i in AddAndReference(r, i).store && i in AddOrPut(r, i).store && i !in RemoveAndRelease(r, i).store
    ensures j != i ==>
      (j in r.store <==> j in AddAndReference(r, i).store) && (j in r.store <==> j in AddOrPut(r, i).store)
      && (j in r.store <==> j in RemoveAndRelease(r, i).store)
  {
  }

  /** `j` lies behind the cursor in address order; everything lies behind `None`. */
  predicate Behind(cursor: Option<Ino>, j: Ino) {
    cursor.Some? ==> cursor.value < j
  }

  /** `i` is the first member behind the cursor. */
  ghost predicate IsNext(store: set<Ino>, cursor: Option<Ino>, i: Ino) {
    && i in store
    && Behind(cursor, i)
    && forall j :: j in store && Behind(cursor, j) ==> i <= j
  }

  class RefStore {
    var tree: set<Ino>
    var refs: map<Ino, int>

    constructor ()
      ensures Value() == Refs({}, map[])
    {
      tree, refs := {}, map[];
    }

    function Value(): Refs
      reads this
    {
      Refs(tree, refs)
    }

    method Insert(i: Ino) returns (inserted: bool)
      modifies this`tree
      ensures inserted == (i !in old(tree))
      ensures tree == old(tree) + {i}
    {
      inserted := i !in tree;
      tree := tree + {i};
    }

    method Erase(i: Ino) returns (existed: bool)
      modifies this`tree
      ensures existed == (i in old(tree))
      ensures tree == old(tree) - {i}
    {
      existed := i in tree;
      tree := tree - {i};
    }

    /** The first member behind the cursor, by a walk over the members. */
    method Successor(cursor: Option<Ino>) returns (next: Option<Ino>)
      ensures next.Some? ==> IsNext(tree, cursor, next.value)
      ensures next.None? ==> forall j :: j in tree ==> !Behind(cursor, j)
    {
      next := None;
      var left := tree;
      while left != {}
        invariant left <= tree
        invariant next.Some? ==> next.value in tree && Behind(cursor, next.value)
        invariant forall j :: j in tree && j !in left && Behind(cursor, j) ==>
          next.Some? && next.value <= j
        decreases left
      {
        var j :| j in left;
        left := left - {j};
        if Behind(cursor, j) && (next.None? || j < next.value) {
          next := Some(j);
        }
      }
    }

    method AddAndReferenceInode(i: Ino)
      modifies this
      ensures Value() == AddAndReference(old(Value()), i)
    {
      var inserted := Insert(i);
      if inserted {
        refs := refs[i := Held(Value(), i) + 1];
      } else {
        assert tree == old(tree);
      }
    }

    method AddOrPutInode(i: Ino)
      modifies this
      ensures Value() == AddOrPut(old(Value()), i)
    {
      var inserted := Insert(i);
      if !inserted {
        assert tree == old(tree);
        refs := refs[i := Held(Value(), i) - 1];
      }
    }

    method RemoveAndReleaseInode(i: Ino) returns (existed: bool)
      modifies this
      ensures existed == (i in old(tree))
      ensures Value() == RemoveAndRelease(old(Value()), i)
    {
      existed := Erase(i);
      if existed {
        refs := refs[i := Held(Value(), i) - 1];
      } else {
        assert tree == old(tree);
      }
    }

    method GetAndRemoveFirstInode() returns (first: Option<Ino>)
      modifies this`tree
      ensures first.None? <==> old(tree) == {}
      ensures first.Some? ==> IsNext(old(tree), None, first.value) && tree == old(tree) - {first.value}
      ensures first.None? ==> tree == old(tree)
    {
      first := Successor(None);
      if first.Some? {
        var _ := Erase(first.value);
      } else {
        assert forall j :: j in tree ==> Behind(None, j);
      }
    }

    /** Find the member behind `oldInode` even if that inode has left the store: it is inserted for
        the search and erased again, which no caller can observe. */
    method GetAndRemoveNextInode(oldInode: Ino) returns (next: Option<Ino>)
      modifies this`tree
      ensures next.Some? ==> IsNext(old(tree), Some(oldInode), next.value) && tree == old(tree) - {next.value}
      ensures next.None? ==> tree == old(tree) && forall j :: j in tree ==> !Behind(Some(oldInode), j)
    {
      if oldInode in tree {
        next := Successor(Some(oldInode));
        if next.Some? {
          var _ := Erase(next.value);
        }
      } else {
        var _ := Insert(oldInode);
        next := Successor(Some(oldInode));
        if next.Some? {
          var _ := Erase(next.value);
        }
        var _ := Erase(oldInode);
        assert next.None? ==> tree == old(tree);
      }
    }
  }
}
