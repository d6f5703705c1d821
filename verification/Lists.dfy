/** Pools of nodes that move between lists, as the driver's list_head rings do.
    A node keeps its identity while its contents change. */
module Lists {

  datatype Node<+T> = Node(id: nat, val: T)

  /** The identities of the nodes on a list, counted. */
  function Ids<T>(s: seq<Node<T>>): (ids: multiset<nat>)
    ensures |ids| == |s|
  {
    if s == [] then multiset{} else Ids(s[..|s| - 1]) + multiset{s[|s| - 1].id}
  }

  function RemoveAt<T>(s: seq<T>, i: nat): (r: seq<T>)
    requires i < |s|
    ensures |r| == |s| - 1
  {
    s[..i] + s[i + 1..]
  }

  lemma {:induction false} IdsConcat<T>(s: seq<Node<T>>, t: seq<Node<T>>)
    ensures Ids(s + t) == Ids(s) + Ids(t)
  {
    if t == [] {
      assert s + t == s;
    } else {
      assert (s + t)[..|s + t| - 1] == s + t[..|t| - 1];
      IdsConcat(s, t[..|t| - 1]);
    }
  }

  lemma {:induction false} IdsPush<T>(s: seq<Node<T>>, n: Node<T>)
    ensures Ids(s + [n]) == Ids(s) + multiset{n.id}
  {
  }

  lemma {:induction false} IdsRemoveAt<T>(s: seq<Node<T>>, i: nat)
    requires i < |s|
    ensures Ids(s) == Ids(RemoveAt(s, i)) + multiset{s[i].id}
  {
    var front, back := s[..i], s[i + 1..];
    assert s == (front + [s[i]]) + back;
    IdsConcat(front + [s[i]], back);
    IdsPush(front, s[i]);
    IdsConcat(front, back);
  }

  lemma {:induction false} IdsFirst<T>(s: seq<Node<T>>)
    requires s != []
    ensures Ids(s) == multiset{s[0].id} + Ids(s[1..])
  {
    IdsRemoveAt(s, 0);
    assert RemoveAt(s, 0) == s[1..];
  }

  /** Changing the contents of a node leaves its list's identities alone. */
  lemma {:induction false} IdsUpdate<T>(s: seq<Node<T>>, i: nat, n: Node<T>)
    requires i < |s| && n.id == s[i].id
    ensures Ids(s[i := n]) == Ids(s)
  {
    IdsRemoveAt(s, i);
    IdsRemoveAt(s[i := n], i);
    assert RemoveAt(s, i) == RemoveAt(s[i := n], i);
  }

  lemma {:induction false} IdIn<T>(s: seq<Node<T>>, i: nat)
    requires i < |s|
    ensures s[i].id in Ids(s)
  {
    IdsRemoveAt(s, i);
  }

  /** Lists whose identities are those of a set, each once, hold no node twice. */
  lemma {:induction false} PoolNoDup<T>(s: seq<Node<T>>, pool: set<nat>)
    requires Ids(s) == multiset(pool)
    ensures |s| == |pool|
    ensures forall i, j :: 0 <= i < j < |s| ==> s[i].id != s[j].id
  {
    assert |multiset(pool)| == |pool|;
    forall i, j | 0 <= i < j < |s| ensures s[i].id != s[j].id {
      assert multiset(pool)[s[i].id] <= 1;
      IdsRemoveAt(s, i);
      assert RemoveAt(s, i)[j - 1] == s[j];
      IdIn(RemoveAt(s, i), j - 1);
    }
  }

  /** Four lists hold a pool between them; a move between two of them changes nothing. */
  lemma Regroup(a: multiset<nat>, b: multiset<nat>, c: multiset<nat>, d: multiset<nat>,
                a': multiset<nat>, b': multiset<nat>, c': multiset<nat>, d': multiset<nat>)
    requires || (a + b == a' + b' && c == c' && d == d')
             || (b + c == b' + c' && a == a' && d == d')
             || (c + d == c' + d' && a == a' && b == b')
             || (d + a == d' + a' && b == b' && c == c')
    ensures a + b + c + d == a' + b' + c' + d'
  {
    if b + c == b' + c' && a == a' && d == d' {
      assert a + b + c + d == a + (b + c) + d;
      assert a' + b' + c' + d' == a' + (b' + c') + d';
    } else if c + d == c' + d' && a == a' && b == b' {
      assert a + b + c + d == a + b + (c + d);
      assert a' + b' + c' + d' == a' + b' + (c' + d');
    } else if d + a == d' + a' && b == b' && c == c' {
      assert a + b + c + d == (d + a) + b + c;
      assert a' + b' + c' + d' == (d' + a') + b' + c';
    }
  }
}
