/**
  How a directory's nodes are linked, as a value: two adjacent levels of nodes, the parents' records of
  their children, the index of the children by handle, and the children's links back.
 */
module GattLinks {
  import opened Bytes

  datatype Level<!P(==), !C(==)> = Level(
    parents: map<nat, P>,
    children: map<nat, C>,
    records: map<nat, Option<map<nat, C>>>,
    parentOf: map<nat, Option<P>>)

  predicate InRecord<P, C>(l: Level<P, C>, p: nat, h: nat) {
    p in l.records && l.records[p].Some? && h in l.records[p].value
  }

  /** The child indexed under `h` is the one in the record of the parent `p`. */
  predicate Held<P, C>(l: Level<P, C>, p: nat, h: nat) {
    InRecord(l, p, h) && h in l.children && l.children[h] == l.records[p].value[h]
  }

  /**
    The index holds exactly the nodes of the parents' records, and every parent link names the parent
    whose record holds the node.
   */
  ghost predicate Indexed<P, C>(l: Level<P, C>) {
    && l.parentOf.Keys == l.children.Keys && l.records.Keys == l.parents.Keys
    && (forall h :: h in l.children ==> exists p :: Held(l, p, h))
    && (forall p, h :: InRecord(l, p, h) ==> Held(l, p, h) && l.parentOf[h] == Some(l.parents[p]))
  }

  /** No node is a parent under two handles. */
  ghost predicate Distinct<P, C>(l: Level<P, C>) {
    forall p, q :: p in l.parents && q in l.parents && l.parents[p] == l.parents[q] ==> p == q
  }

  /** An index that agrees gives every child one parent. */
  lemma OneParent<P, C>(l: Level<P, C>, p: nat, q: nat, h: nat)
    requires Indexed(l) && Distinct(l) && InRecord(l, p, h) && InRecord(l, q, h)
    ensures p == q
  {
    assert l.parents[p] == l.parents[q];
  }

  lemma OneParentEach<P, C>(l: Level<P, C>)
    requires Indexed(l) && Distinct(l)
    ensures forall p, q, h :: InRecord(l, p, h) && InRecord(l, q, h) ==> p == q
  {
    forall p, q, h | InRecord(l, p, h) && InRecord(l, q, h)
      ensures p == q
    {
      OneParent(l, p, q, h);
    }
  }

  function Content<T>(record: Option<map<nat, T>>): map<nat, T> {
    if record.Some? then record.value else map[]
  }

  // ---------------------------------------------------------------- more children

  /** Nodes enter a parent's record and the index, linked to that parent. */
  function WithChildren<P, C>(l: Level<P, C>, p: nat, added: map<nat, C>): Level<P, C>
    requires p in l.parents && p in l.records
  {
    Level(l.parents, l.children + added, l.records[p := Some(Content(l.records[p]) + added)],
          l.parentOf + (map h | h in added :: Some(l.parents[p])))
  }

  /** No added handle is in another parent's record. */
  ghost predicate Unshared<P, C>(l: Level<P, C>, p: nat, added: map<nat, C>) {
    forall h, q :: h in added && InRecord(l, q, h) ==> q == p
  }

  lemma ChildrenAdded<P, C>(l: Level<P, C>, p: nat, added: map<nat, C>)
    requires Indexed(l) && p in l.parents && Unshared(l, p, added)
    ensures Indexed(WithChildren(l, p, added))
  {
    var r := WithChildren(l, p, added);
    forall h | h in r.children
      ensures exists q :: Held(r, q, h)
    {
      if h in added {
        assert Held(r, p, h);
      } else {
        var q :| Held(l, q, h);
        assert Held(r, q, h);
      }
    }
    forall q, h | InRecord(r, q, h)
      ensures Held(r, q, h) && r.parentOf[h] == Some(r.parents[q])
    {
      if q != p || h !in added {
        assert InRecord(l, q, h);
      }
    }
  }

  /** A new node under a handle that another parent's record holds leaves the index out of step. */
  lemma SharedChildrenDisagree<P, C>(l: Level<P, C>, p: nat, added: map<nat, C>)
    requires Indexed(l) && p in l.parents && Indexed(WithChildren(l, p, added))
    requires forall h :: h in added && h in l.children ==> added[h] != l.children[h]
    ensures Unshared(l, p, added)
  {
    var r := WithChildren(l, p, added);
    forall h, q | h in added && InRecord(l, q, h)
      ensures q == p
    {
      assert Held(l, q, h);
      assert q != p ==> InRecord(r, q, h) && !Held(r, q, h);
    }
  }

  // ---------------------------------------------------------------- more parents

  /** New parents, without children so far, in the place of those with the same handles. */
  function WithParents<P, C>(l: Level<P, C>, more: map<nat, P>): Level<P, C> {
    Level(l.parents + more, l.children, l.records + (map p | p in more :: None), l.parentOf)
  }

  /** No replaced parent has children. */
  ghost predicate Childless<P, C>(l: Level<P, C>, more: map<nat, P>) {
    forall p, h :: p in more ==> !InRecord(l, p, h)
  }

  lemma ParentsAdded<P, C>(l: Level<P, C>, more: map<nat, P>)
    requires Indexed(l) && Childless(l, more)
    ensures Indexed(WithParents(l, more))
  {
    var r := WithParents(l, more);
    forall h | h in r.children
      ensures exists q :: Held(r, q, h)
    {
      var q :| Held(l, q, h);
      assert Held(r, q, h);
    }
    forall q, h | InRecord(r, q, h)
      ensures Held(r, q, h) && r.parentOf[h] == Some(r.parents[q])
    {
      assert InRecord(l, q, h);
    }
  }

  /** The children of a replaced parent stay in the index with no record that holds them. */
  lemma OrphansDisagree<P, C>(l: Level<P, C>, more: map<nat, P>)
    requires Indexed(l) && Distinct(l) && Indexed(WithParents(l, more))
    ensures Childless(l, more)
  {
    var r := WithParents(l, more);
    forall p, h | p in more
      ensures !InRecord(l, p, h)
    {
      if InRecord(l, p, h) {
        assert Held(l, p, h);
        var q :| Held(r, q, h);
        OneParent(l, p, q, h);
        assert false;
      }
    }
  }

  // ---------------------------------------------------------------- an index with its parents

  /** The part of an index whose parents are in `from`. */
  ghost function Under<T>(index: map<nat, T>, parent: map<nat, nat>, from: set<nat>): map<nat, T>
    requires parent.Keys == index.Keys
  {
    map h | h in index && parent[h] in from :: index[h]
  }

  lemma UnderNone<T>(index: map<nat, T>, parent: map<nat, nat>)
    requires parent.Keys == index.Keys
    ensures Under(index, parent, {}) == map[]
  {
  }

  lemma UnderAll<T>(index: map<nat, T>, parent: map<nat, nat>, from: set<nat>)
    requires parent.Keys == index.Keys && forall h :: h in parent ==> parent[h] in from
    ensures Under(index, parent, from) == index
  {
  }

  lemma UnderMore<T>(index: map<nat, T>, parent: map<nat, nat>, from: set<nat>, more: set<nat>)
    requires parent.Keys == index.Keys
    ensures Under(index, parent, from) + Under(index, parent, more) == Under(index, parent, from + more)
  {
  }

  lemma OwnedRecord<P, C>(l: Level<P, C>, owner: map<nat, nat>, p: nat, h: nat)
    requires l.records.Keys == l.parents.Keys && owner.Keys == l.children.Keys
    requires forall q :: q in l.parents ==> Content(l.records[q]) == Under(l.children, owner, {q})
    requires forall k :: k in owner ==> owner[k] in l.parents
    ensures InRecord(l, p, h) <==> h in l.children && owner[h] == p
    ensures InRecord(l, p, h) ==> l.records[p].value[h] == l.children[h]
  {
    assert p in l.parents ==> (h in Content(l.records[p]) <==> InRecord(l, p, h));
  }

  /** An index agrees when every record is the part of it that names the record's parent as owner. */
  lemma OwnedIndexed<P, C>(l: Level<P, C>, owner: map<nat, nat>)
    requires l.records.Keys == l.parents.Keys && owner.Keys == l.children.Keys && l.parentOf.Keys == l.children.Keys
    requires forall p :: p in l.parents ==> Content(l.records[p]) == Under(l.children, owner, {p})
    requires forall h :: h in owner ==> owner[h] in l.parents && l.parentOf[h] == Some(l.parents[owner[h]])
    ensures Indexed(l)
  {
    forall h | h in l.children
      ensures exists p :: Held(l, p, h)
    {
      OwnedRecord(l, owner, owner[h], h);
      assert Held(l, owner[h], h);
    }
    forall p, h | InRecord(l, p, h)
      ensures Held(l, p, h) && l.parentOf[h] == Some(l.parents[p])
    {
      OwnedRecord(l, owner, p, h);
    }
  }

  lemma PlusPlus<T>(a: map<nat, T>, b: map<nat, T>, c: map<nat, T>)
    ensures (a + b) + c == a + (b + c)
  {
  }

  lemma PlusNone<T>(m: map<nat, T>)
    ensures m + map[] == m
  {
  }

  lemma PlusUpdate<T>(base: map<nat, T>, added: map<nat, T>, h: nat, node: T)
    ensures (base + added)[h := node] == base + added[h := node]
  {
  }
}
