/**
An AVL tree as an index: what is filed under each key.
 */
module AvlIndex {
  import opened AvlShape
  import opened AvlSteps

  /** One node for every entry, under its key. */
  ghost predicate Files(s: seq<Node>, index: map<int, object>) {
    && (forall n :: n in s ==> n.key in index && n.data == index[n.key])
    && (forall k :: k in index ==> exists n :: n in s && n.key == k)
  }

  lemma FilesInserted(s: seq<Node>, index: map<int, object>, n: Node, o: object)
    requires Files(s, index) && n.key !in index && n.data == o
    ensures Files(Inserted(s, n), index[n.key := o]) && forall m :: m in s ==> m.key != n.key
  {
    var t := Inserted(s, n);
    forall m | m in t ensures m == n || m in s {
      InsertedMembers(s, n, m);
    }
    forall k | k in index || k == n.key ensures exists m :: m in t && m.key == k {
      var m: Node :| m.key == k && if k == n.key then m == n else m in s;
      InsertedMembers(s, n, m);
    }
  }

  lemma FilesRemoved(s: seq<Node>, index: map<int, object>, n: Node)
    requires Files(s, index) && Ordered(s) && n in s
    ensures Files(Removed(s, n), index - {n.key})
  {
    var t := Removed(s, n);
    forall m | m in t ensures m.key != n.key && m in s {
      RemovedMembers(s, n, m);
      if m.key == n.key { OneNodePerKey(s, m, n); }
    }
    forall k | k in index && k != n.key ensures exists m :: m in t && m.key == k {
      var m :| m in s && m.key == k;
      RemovedMembers(s, n, m);
    }
  }

  lemma OneNodePerKey(s: seq<Node>, m: Node, n: Node)
    requires Ordered(s) && m in s && n in s && m.key == n.key
    ensures m == n
  {}

  lemma {:induction false} InsertedMembers(s: seq<Node>, n: Node, m: Node)
    ensures m in Inserted(s, n) <==> m == n || m in s
  {
    if s != [] && n.key >= s[0].key { InsertedMembers(s[1..], n, m); }
  }

  lemma {:induction false} RemovedMembers(s: seq<Node>, n: Node, m: Node)
    requires Ordered(s)
    ensures m in Removed(s, n) <==> m != n && m in s
  {
    if s != [] { RemovedMembers(s[1..], n, m); }
  }
}
