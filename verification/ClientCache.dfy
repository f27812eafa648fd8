/** The test servers' cache of encryption clients: a map and a recency list kept in step. */
module ClientCache {
  import opened Wrappers

  const MAX_CACHED_CLIENTS: nat := 100

  type Id = string

  ghost predicate NoDuplicates(s: seq<Id>) {
    forall i, j :: 0 <= i < j < |s| ==> s[i] != s[j]
  }

  /** The list without an id: what erasing its node leaves. */
  function Without(s: seq<Id>, id: Id): seq<Id> {
    if s == [] then [] else if s[0] == id then Without(s[1..], id) else [s[0]] + Without(s[1..], id)
  }

  /** The ids of a use history (latest use first), each once, by last use. */
  function ByRecency(history: seq<Id>): seq<Id> {
    if history == [] then [] else [history[0]] + Without(ByRecency(history[1..]), history[0])
  }

  function Take(s: seq<Id>, n: nat): seq<Id> {
    if |s| <= n then s else s[..n]
  }

  /** The abstract LRU cache: the most recently used ids, as many as fit. */
  function Cached(history: seq<Id>): seq<Id> {
    Take(ByRecency(history), MAX_CACHED_CLIENTS)
  }

  /** The distinct other ids used since the last use of `id`. */
  function UsedSince(history: seq<Id>, id: Id): set<Id> {
    if history == [] || history[0] == id then {} else {history[0]} + UsedSince(history[1..], id)
  }

  lemma {:induction false} WithoutKeepsOthers(s: seq<Id>, id: Id)
    ensures forall x :: x in Without(s, id) <==> x in s && x != id
    ensures NoDuplicates(s) ==> NoDuplicates(Without(s, id))
    ensures id !in s ==> Without(s, id) == s
  {
    if s != [] {
      WithoutKeepsOthers(s[1..], id);
      assert s == [s[0]] + s[1..];
      if NoDuplicates(s) {
        assert s[0] !in s[1..];
      }
    }
  }

  /** Where `id` sits, removing it splices the list. */
  lemma {:induction false} WithoutSplices(s: seq<Id>, p: nat)
    requires NoDuplicates(s) && p < |s|
    ensures Without(s, s[p]) == s[..p] + s[p + 1..]
  {
    if p == 0 {
      assert s[p] !in s[1..];
      WithoutKeepsOthers(s[1..], s[p]);
    } else {
      WithoutSplices(s[1..], p - 1);
      assert s[..p] + s[p + 1..] == [s[0]] + (s[1..][..p - 1] + s[1..][p..]);
    }
  }

  lemma {:induction false} ByRecencyIsHistory(history: seq<Id>)
    ensures NoDuplicates(ByRecency(history))
    ensures forall x :: x in ByRecency(history) <==> x in history
  {
    if history != [] {
      ByRecencyIsHistory(history[1..]);
      WithoutKeepsOthers(ByRecency(history[1..]), history[0]);
      assert history == [history[0]] + history[1..];
    }
  }

  ghost function Elements(s: seq<Id>): set<Id> {
    set x | x in s
  }

  lemma {:induction false} SizeOf(s: seq<Id>)
    requires NoDuplicates(s)
    ensures |Elements(s)| == |s|
  {
    if s != [] {
      var n := |s| - 1;
      assert s == s[..n] + [s[n]];
      SizeOf(s[..n]);
      assert Elements(s) == Elements(s[..n]) + {s[n]};
    }
  }

  lemma ElementsOfPrefix(s: seq<Id>, k: nat, q: nat)
    requires k < q <= |s|
    ensures Elements(s[..q]) == Elements(s[..k]) + {s[k]} + Elements(s[k + 1..q])
  {
    assert s[..q] == s[..k] + [s[k]] + s[k + 1..q];
  }

  /** Moving `h` to the front of a recency list puts it ahead of every other id. */
  lemma MoveToFront(r: seq<Id>, h: Id, q: nat) returns (p: nat)
    requires NoDuplicates(r) && q < |r| && r[q] != h
    ensures var s := [h] + Without(r, h);
            p < |s| && s[p] == r[q] && Elements(s[..p]) == {h} + Elements(r[..q])
  {
    var s := [h] + Without(r, h);
    if h in r {
      var k :| 0 <= k < |r| && r[k] == h;
      WithoutSplices(r, k);
      if k < q {
        p := q;
        assert s[..p] == [h] + (r[..k] + r[k + 1..q]);
        ElementsOfPrefix(r, k, q);
      } else {
        p := q + 1;
        assert s[..p] == [h] + r[..q];
      }
    } else {
      WithoutKeepsOthers(r, h);
      p := q + 1;
      assert s[..p] == [h] + r[..q];
    }
  }

  /** The ids ahead of `id` are exactly the distinct ones used since. */
  lemma {:induction false} Position(history: seq<Id>, id: Id) returns (p: nat)
    requires id in history
    ensures p < |ByRecency(history)| && ByRecency(history)[p] == id
    ensures Elements(ByRecency(history)[..p]) == UsedSince(history, id)
    ensures |UsedSince(history, id)| == p
    decreases |history|
  {
    if history[0] == id {
      p := 0;
    } else {
      assert history == [history[0]] + history[1..];
      var q := Position(history[1..], id);
      ByRecencyIsHistory(history[1..]);
      p := MoveToFront(ByRecency(history[1..]), history[0], q);
    }
    ByRecencyIsHistory(history);
    SizeOf(ByRecency(history)[..p]);
  }

  lemma TakeMember(s: seq<Id>, n: nat, p: nat)
    requires NoDuplicates(s) && p < |s|
    ensures s[p] in Take(s, n) <==> p < n
  {
    if p < n {
      assert Take(s, n)[p] == s[p];
    }
  }

  /** An id is cached exactly when it was used and fewer than 100 distinct other ids were used
      since its last use. */
  lemma CachedExactly(history: seq<Id>, id: Id)
    ensures id in Cached(history) <==> id in history && |UsedSince(history, id)| < MAX_CACHED_CLIENTS
  {
    var all := ByRecency(history);
    ByRecencyIsHistory(history);
    if id in history {
      var p := Position(history, id);
      TakeMember(all, MAX_CACHED_CLIENTS, p);
    }
  }

  /** One more use: to the front, and what no longer fits drops off the end. */
  lemma UseCached(history: seq<Id>, id: Id)
    requires id in Cached(history)
    ensures Cached([id] + history) == [id] + Without(Cached(history), id)
  {
    var all := ByRecency(history);
    ByRecencyIsHistory(history);
    assert ([id] + history)[1..] == history;
    var p :| 0 <= p < |Cached(history)| && Cached(history)[p] == id;
    WithoutSplices(all, p);
    WithoutSplices(Cached(history), p);
  }

  lemma UseNew(history: seq<Id>, id: Id)
    requires id !in Cached(history)
    ensures Cached([id] + history) == Take([id] + Cached(history), MAX_CACHED_CLIENTS)
  {
    var all := ByRecency(history);
    ByRecencyIsHistory(history);
    assert ([id] + history)[1..] == history;
    if id in all {
      var p :| 0 <= p < |all| && all[p] == id;
      WithoutSplices(all, p);
      TakeMember(all, MAX_CACHED_CLIENTS, p);
    } else {
      WithoutKeepsOthers(all, id);
    }
  }

  ghost predicate Submap<T>(a: map<Id, T>, b: map<Id, T>) {
    forall x :: x in a ==> x in b && a[x] == b[x]
  }

  /** What is left of `full` while it is cut down from the back to the limit. */
  ghost predicate Front(order: seq<Id>, full: seq<Id>) {
    order <= full && (|order| == |full| || |order| >= MAX_CACHED_CLIENTS)
  }

  lemma FrontShrinks(order: seq<Id>, full: seq<Id>)
    requires Front(order, full) && |order| > MAX_CACHED_CLIENTS
    ensures Front(order[..|order| - 1], full)
  {
  }

  lemma FrontIsTake(order: seq<Id>, full: seq<Id>)
    requires Front(order, full) && |order| <= MAX_CACHED_CLIENTS
    ensures order == Take(full, MAX_CACHED_CLIENTS)
  {
  }

  lemma DropLast(s: seq<Id>)
    requires NoDuplicates(s) && s != []
    ensures NoDuplicates(s[..|s| - 1]) && s[|s| - 1] in Elements(s)
    ensures Elements(s[..|s| - 1]) == Elements(s) - {s[|s| - 1]}
  {
    assert s == s[..|s| - 1] + [s[|s| - 1]];
  }

  class LruCache<Client> {
    var clients: map<Id, Client>
    var lruOrder: seq<Id>
    ghost var history: seq<Id>

    ghost predicate Valid()
      reads this
    {
      && NoDuplicates(lruOrder)
      && clients.Keys == Elements(lruOrder)
      && lruOrder == Cached(history)
    }

    constructor ()
      ensures Valid() && clients == map[] && history == []
    {
      clients, lruOrder, history := map[], [], [];
    }

    /** Look a client up; a hit makes it the most recently used. */
    method GetClient(id: Id) returns (client: Option<Client>)
      requires Valid()
      modifies this
      ensures Valid() && clients == old(clients)
      ensures client == if id in clients then Some(clients[id]) else None
      ensures history == if id in clients then [id] + old(history) else old(history)
    {
      if id !in clients {
        return None;
      }
      UseCached(history, id);
      WithoutKeepsOthers(lruOrder, id);
      lruOrder := Without(lruOrder, id);
      lruOrder := [id] + lruOrder;
      history := [id] + history;
      return Some(clients[id]);
    }

    /** Insert a client under an id that is not cached. */
    method SetClient(id: Id, client: Client)
      requires Valid() && id !in clients
      modifies this
      ensures Valid() && history == [id] + old(history)
      ensures id in clients && clients[id] == client
      ensures forall x :: x in clients && x != id ==> x in old(clients) && clients[x] == old(clients)[x]
    {
      UseNew(history, id);
      lruOrder := [id] + lruOrder;
      clients := clients[id := client];
      ghost var all := clients;
      Evict();
      history := [id] + history;
      assert lruOrder[0] == id;
    }

    /** Drop clients from the back of the list while there are too many. */
    method Evict()
      requires NoDuplicates(lruOrder) && clients.Keys == Elements(lruOrder)
      modifies `clients, `lruOrder
      ensures NoDuplicates(lruOrder) && clients.Keys == Elements(lruOrder)
      ensures lruOrder == Take(old(lruOrder), MAX_CACHED_CLIENTS)
      ensures Submap(clients, old(clients))
      ensures |clients| <= MAX_CACHED_CLIENTS
    {
      ghost var full, before := lruOrder, clients;
      Sizes(clients, lruOrder);
      while |clients| > MAX_CACHED_CLIENTS
        invariant Evicting(full, before)
        decreases |lruOrder|
      {
        EvictLast(full, before);
      }
      FrontIsTake(lruOrder, full);
    }

    ghost predicate Evicting(full: seq<Id>, before: map<Id, Client>)
      reads this
    {
      && NoDuplicates(lruOrder) && clients.Keys == Elements(lruOrder) && |clients| == |lruOrder|
      && Front(lruOrder, full)
      && Submap(clients, before)
    }

    /** The list is never empty here: there are clients, and it lists them all. */
    method EvictLast(ghost full: seq<Id>, ghost before: map<Id, Client>)
      requires Evicting(full, before) && |clients| > MAX_CACHED_CLIENTS
      modifies `clients, `lruOrder
      ensures Evicting(full, before) && |lruOrder| < old(|lruOrder|)
    {
      var n := |lruOrder| - 1;
      var lruClientId := lruOrder[n];
      DropLast(lruOrder);
      FrontShrinks(lruOrder, full);
      lruOrder := lruOrder[..n];
      if lruClientId in clients {
        clients := clients - {lruClientId};
      }
      Sizes(clients, lruOrder);
    }

    static lemma {:induction false} Sizes(clients: map<Id, Client>, order: seq<Id>)
      requires NoDuplicates(order) && clients.Keys == Elements(order)
      ensures |clients| == |order|
    {
      SizeOf(order);
      assert |clients| == |clients.Keys|;
    }
  }
}
