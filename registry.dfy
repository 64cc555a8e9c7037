/**
 * The designer's peer registry: an ordered list of (source type, peer type)
 * bindings. Lookup scans the list and compares source types exactly; a source
 * type without a binding resolves to the registry's fallback peer type.
 */
module Registry {

  datatype Option<T> = None | Some(value: T)

  /** No source type is bound twice. */
  predicate Unique<S(==), P>(items: seq<(S, P)>)
  {
    forall i, j :: 0 <= i < j < |items| ==> items[i].0 != items[j].0
  }

  /** Position of the first binding for `s`, or -1 when `s` is not bound. */
  function IndexOf<S(==), P>(items: seq<(S, P)>, s: S): (i: int)
    ensures -1 <= i < |items|
    ensures i == -1 <==> forall k :: 0 <= k < |items| ==> items[k].0 != s
    ensures 0 <= i ==> items[i].0 == s && forall k :: 0 <= k < i ==> items[k].0 != s
  {
    if items == [] then -1
    else if items[0].0 == s then 0
    else
      var j := IndexOf(items[1..], s);
      if j == -1 then -1 else j + 1
  }

  /** The peer type bound to `s`, if any. */
  function Lookup<S(==), P>(items: seq<(S, P)>, s: S): Option<P>
  {
    var i := IndexOf(items, s);
    if i == -1 then None else Some(items[i].1)
  }

  /** The peer type a new peer for a node of type `s` gets. */
  function Resolve<S(==), P>(items: seq<(S, P)>, s: S, fallback: P): P
  {
    match Lookup(items, s)
    case Some(p) => p
    case None => fallback
  }

  /** The bindings after registering `p` for `s`: overwrite in place, or append. */
  function Registered<S(==), P>(items: seq<(S, P)>, s: S, p: P): seq<(S, P)>
  {
    var i := IndexOf(items, s);
    if i == -1 then items + [(s, p)] else items[i := (s, p)]
  }

  /** The bindings after unregistering `s`: the first binding for `s` is spliced out. */
  function Unregistered<S(==), P>(items: seq<(S, P)>, s: S): seq<(S, P)>
  {
    var i := IndexOf(items, s);
    if i == -1 then items else items[..i] + items[i + 1..]
  }

  /** Reference definition: every binding whose source is not `s`, in order. */
  function Without<S(==), P>(items: seq<(S, P)>, s: S): (r: seq<(S, P)>)
    ensures |r| <= |items|
    ensures forall k :: 0 <= k < |r| ==> r[k].0 != s && r[k] in items
    ensures forall k :: 0 <= k < |items| && items[k].0 != s ==> items[k] in r
  {
    if items == [] then []
    else (if items[0].0 == s then [] else [items[0]]) + Without(items[1..], s)
  }

  /** Exact-type lookup finds the peer type of a binding in a registry without duplicates. */
  lemma {:induction false} LookupFindsBinding<S, P>(items: seq<(S, P)>, k: nat)
    requires Unique(items) && k < |items|
    ensures Lookup(items, items[k].0) == Some(items[k].1)
  {
    LookupFirst(items, k);
  }

  /** A binding whose type no earlier binding has is what lookup finds. */
  lemma LookupFirst<S, P>(items: seq<(S, P)>, k: nat)
    requires k < |items| && forall j :: 0 <= j < k ==> items[j].0 != items[k].0
    ensures Lookup(items, items[k].0) == Some(items[k].1)
  {
    var i := IndexOf(items, items[k].0);
    assert i == k by {
      if i < k { assert items[i].0 == items[k].0; }
    }
  }

  /** A source type with no binding resolves to the fallback. */
  lemma ResolveUnbound<S, P>(items: seq<(S, P)>, s: S, fallback: P)
    requires forall k :: 0 <= k < |items| ==> items[k].0 != s
    ensures Resolve(items, s, fallback) == fallback
  {
  }

  /**
   * registerPeer overwrites the binding of an already-registered type in place
   * (same length) and otherwise appends exactly one binding.
   */
  lemma RegisterShape<S, P>(items: seq<(S, P)>, s: S, p: P)
    ensures Lookup(items, s).Some? ==>
      |Registered(items, s, p)| == |items| &&
      forall k :: 0 <= k < |items| && items[k].0 != s ==> Registered(items, s, p)[k] == items[k]
    ensures Lookup(items, s).None? ==> Registered(items, s, p) == items + [(s, p)]
  {
  }

  /** Registering a type that has no binding appends exactly one binding. */
  lemma RegisterUnbound<S, P>(items: seq<(S, P)>, s: S, p: P)
    requires forall k :: 0 <= k < |items| ==> items[k].0 != s
    ensures Registered(items, s, p) == items + [(s, p)]
  {
  }

  /** registerPeer keeps source types pairwise distinct. */
  lemma {:induction false} RegisterKeepsUnique<S, P>(items: seq<(S, P)>, s: S, p: P)
    requires Unique(items)
    ensures Unique(Registered(items, s, p))
  {
    var r := Registered(items, s, p);
    var i := IndexOf(items, s);
    forall a, b | 0 <= a < b < |r| ensures r[a].0 != r[b].0 {
      if i == -1 {
        if b == |items| { assert r[a] == items[a]; }
      } else {
        assert r[a].0 == items[a].0 && r[b].0 == items[b].0;
      }
    }
  }

  /** After registerPeer, `s` resolves to `p` and every other type resolves as before. */
  lemma {:induction false} RegisterLookup<S, P>(items: seq<(S, P)>, s: S, p: P, t: S)
    ensures Lookup(Registered(items, s, p), t) == if t == s then Some(p) else Lookup(items, t)
  {
    var r := Registered(items, s, p);
    var i := IndexOf(items, s);
    if t == s {
      var m := IndexOf(r, t);
      if i == -1 {
        assert r[|items|].0 == t;
        assert m == |items|;
      } else {
        assert r[i].0 == t;
        assert m == i;
      }
    } else {
      var j := IndexOf(items, t);
      assert forall k :: 0 <= k < |items| ==> r[k].0 == items[k].0;
      if j == -1 {
        assert IndexOf(r, t) == -1;
      } else {
        assert IndexOf(r, t) == j;
        assert j != i;
      }
    }
  }

  /** Splicing out the binding for `s` equals dropping every binding for `s`, order kept. */
  lemma {:induction false} UnregisterKeepsOrder<S, P>(items: seq<(S, P)>, s: S)
    requires Unique(items)
    ensures Unregistered(items, s) == Without(items, s)
  {
    if items != [] {
      var tail := items[1..];
      UniqueTail(items);
      if items[0].0 == s {
        WithoutUnbound(tail, s);
        assert Unregistered(items, s) == tail;
      } else {
        UnregisterKeepsOrder(tail, s);
        UnregisteredCons(items, s);
      }
    }
  }

  /** Without its first binding a registry stays unique, and no later binding shares the first one's type. */
  lemma UniqueTail<S, P>(items: seq<(S, P)>)
    requires Unique(items) && items != []
    ensures Unique(items[1..])
    ensures forall k :: 0 <= k < |items| - 1 ==> items[1..][k].0 != items[0].0
  {
    var tail := items[1..];
    forall a, b | 0 <= a < b < |tail| ensures tail[a].0 != tail[b].0 {
      assert tail[a] == items[a + 1] && tail[b] == items[b + 1];
    }
    forall k | 0 <= k < |tail| ensures tail[k].0 != items[0].0 {
      assert tail[k] == items[k + 1];
    }
  }

  /** Unregistering a type other than the first binding's keeps that binding in front. */
  lemma UnregisteredCons<S, P>(items: seq<(S, P)>, s: S)
    requires items != [] && items[0].0 != s
    ensures Unregistered(items, s) == [items[0]] + Unregistered(items[1..], s)
  {
    var tail := items[1..];
    var j := IndexOf(tail, s);
    if j == -1 {
      assert [items[0]] + tail == items;
    } else {
      assert IndexOf(items, s) == j + 1;
      assert items[..j + 1] == [items[0]] + tail[..j];
      assert items[j + 2..] == tail[j + 1..];
    }
  }

  /** Dropping the bindings of a type that has none changes nothing. */
  lemma {:induction false} WithoutUnbound<S, P>(items: seq<(S, P)>, s: S)
    requires forall k :: 0 <= k < |items| ==> items[k].0 != s
    ensures Without(items, s) == items
  {
    if items != [] {
      WithoutUnbound(items[1..], s);
      assert [items[0]] + items[1..] == items;
    }
  }

  /** unregisterPeer is a no-op for a type that is not registered. */
  lemma UnregisterAbsent<S, P>(items: seq<(S, P)>, s: S)
    requires Lookup(items, s).None?
    ensures Unregistered(items, s) == items
  {
  }

  /**
   * After unregisterPeer(s) a node of type `s` gets the fallback peer, and every
   * other type keeps its binding.
   */
  lemma {:induction false} UnregisterLookup<S, P>(items: seq<(S, P)>, s: S, t: S, fallback: P)
    requires Unique(items)
    ensures Resolve(Unregistered(items, s), s, fallback) == fallback
    ensures t != s ==> Lookup(Unregistered(items, s), t) == Lookup(items, t)
  {
    var r := Unregistered(items, s);
    var i := IndexOf(items, s);
    if i != -1 {
      assert |r| == |items| - 1;
      assert forall k :: 0 <= k < i ==> r[k] == items[k];
      assert forall k :: i <= k < |r| ==> r[k] == items[k + 1];
      assert forall k :: 0 <= k < |r| ==> r[k].0 != s by {
        forall k | 0 <= k < |r| ensures r[k].0 != s {
          if k >= i { assert items[k + 1].0 != items[i].0; }
        }
      }
      if t != s {
        var j := IndexOf(items, t);
        if j == -1 {
          assert IndexOf(r, t) == -1;
        } else if j < i {
          assert IndexOf(r, t) == j;
        } else {
          assert r[j - 1] == items[j];
          var m := IndexOf(r, t);
          assert m == j - 1;
        }
      }
    }
  }

  /** unregisterPeer keeps source types pairwise distinct. */
  lemma {:induction false} UnregisterKeepsUnique<S, P>(items: seq<(S, P)>, s: S)
    requires Unique(items)
    ensures Unique(Unregistered(items, s))
  {
    var r := Unregistered(items, s);
    var i := IndexOf(items, s);
    if i != -1 {
      forall a, b | 0 <= a < b < |r| ensures r[a].0 != r[b].0 {
        var a' := if a < i then a else a + 1;
        var b' := if b < i then b else b + 1;
        assert r[a] == items[a'] && r[b] == items[b'];
      }
    }
  }

  /**
   * A registry of peer types (DesignerPeerRegistry). The two concrete
   * registries differ only in their default bindings and in the fallback
   * peer type that createPeerInstance uses.
   */
  class PeerRegistry<S(==), P> {
    var items: seq<(S, P)>
    const fallback: P

    ghost predicate Valid()
      reads this
    {
      Unique(items)
    }

    /** An empty registry; the concrete registries then run their reset. */
    constructor (fallback: P)
      ensures items == [] && this.fallback == fallback
    {
      items := [];
      this.fallback := fallback;
    }

    /** findTypeRegistration: linear scan for the first binding whose source is `s`. */
    method FindTypeRegistration(s: S) returns (i: int)
      ensures i == IndexOf(items, s)
    {
      i := 0;
      while i < |items|
        invariant 0 <= i <= |items|
        invariant forall k :: 0 <= k < i ==> items[k].0 != s
      {
        if items[i].0 == s {
          return;
        }
        i := i + 1;
      }
      i := -1;
    }

    method Clear()
      modifies this
      ensures items == []
    {
      items := [];
    }

    method RegisterPeer(s: S, p: P)
      modifies this
      ensures items == Registered(old(items), s, p)
      ensures old(Valid()) ==> Valid()
    {
      var i := FindTypeRegistration(s);
      if i != -1 {
        items := items[i := (s, p)];
      } else {
        items := items + [(s, p)];
      }
      if old(Valid()) {
        RegisterKeepsUnique(old(items), s, p);
      }
    }

    method UnregisterPeer(s: S)
      modifies this
      ensures items == Unregistered(old(items), s)
      ensures old(Valid()) ==> Valid()
    {
      if old(Valid()) {
        UnregisterKeepsUnique(items, s);
      }
      var i := 0;
      while i < |items|
        invariant 0 <= i <= |items|
        invariant items == old(items)
        invariant forall k :: 0 <= k < i ==> items[k].0 != s
      {
        if items[i].0 == s {
          items := items[..i] + items[i + 1..];
          return;
        }
        i := i + 1;
      }
    }

    /**
     * createPeerInstance, reduced to the peer type it instantiates: the bound
     * peer type when `s` is registered, the fallback otherwise; it never fails.
     */
    method CreatePeerInstance(s: S) returns (p: P)
      ensures Lookup(items, s) == Some(p) || (Lookup(items, s) == None && p == fallback)
    {
      var i := FindTypeRegistration(s);
      p := if i != -1 then items[i].1 else fallback;
    }
  }
}
