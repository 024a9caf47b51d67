/** The descriptor cache behind the `sock` attribute of a user record: a two-way
    map from a socket's file descriptor to the live socket, shared by every
    `SocketField`, so that the store keeps only an integer and reading it back
    yields the socket object again. */
module SocketFields {
  import opened Wrappers

  /** A live socket, known only by its identity. Whether `fileno()` answers is
      a property of the moment of the call, so it is passed to each store. */
  datatype Socket = Socket(id: nat)

  /** The two directions of the bidirectional map. */
  datatype Bidict = Bidict(fwd: map<int, Socket>, inv: map<Socket, int>)

  const Empty := Bidict(map[], map[])

  /** Both directions describe the same set of pairs. */
  ghost predicate Consistent(c: Bidict) {
    && (forall fd :: fd in c.fwd ==> c.fwd[fd] in c.inv && c.inv[c.fwd[fd]] == fd)
    && (forall s :: s in c.inv ==> c.inv[s] in c.fwd && c.fwd[c.inv[s]] == s)
  }

  /** Forward lookup, `cache.get(fd, None)`. */
  function Get(c: Bidict, fd: int): Option<Socket> {
    if fd in c.fwd then Some(c.fwd[fd]) else None
  }

  /** Inverse lookup, `cache[:s]`, with None for the KeyError. */
  function GetInverse(c: Bidict, s: Socket): Option<int> {
    if s in c.inv then Some(c.inv[s]) else None
  }

  /** `cache[fd] = s`: every pair whose descriptor is `fd` or whose socket is `s`
      is dropped, then the pair (fd, s) is added. */
  function Put(c: Bidict, fd: int, s: Socket): (r: Bidict)
    ensures fd in r.fwd && r.fwd[fd] == s && s in r.inv && r.inv[s] == fd
  {
    var fwd := map k | k in c.fwd && k != fd && c.fwd[k] != s :: c.fwd[k];
    var inv := map t | t in c.inv && t != s && c.inv[t] != fd :: c.inv[t];
    Bidict(fwd[fd := s], inv[s := fd])
  }

  /** The cache is one-to-one after every assignment. */
  lemma PutConsistent(c: Bidict, fd: int, s: Socket)
    requires Consistent(c)
    ensures Consistent(Put(c, fd, s))
  {
  }

  /** In a consistent cache no two descriptors name the same socket. */
  lemma ConsistentInjective(c: Bidict, fd1: int, fd2: int)
    requires Consistent(c)
    requires fd1 in c.fwd && fd2 in c.fwd && c.fwd[fd1] == c.fwd[fd2]
    ensures fd1 == fd2
  {
  }

  /** A read of the descriptor just assigned gives the socket back, and the
      socket now has no other descriptor. */
  lemma PutThenGet(c: Bidict, fd: int, s: Socket)
    ensures Get(Put(c, fd, s), fd) == Some(s)
    ensures GetInverse(Put(c, fd, s), s) == Some(fd)
    ensures forall k :: k in Put(c, fd, s).fwd && Put(c, fd, s).fwd[k] == s ==> k == fd
  {
  }

  /** Pairs that share neither the descriptor nor the socket are kept, and no
      descriptor other than `fd` is added. */
  lemma PutKeepsOthers(c: Bidict, fd: int, s: Socket, k: int)
    requires k != fd
    ensures Get(Put(c, fd, s), k) == (if k in c.fwd && c.fwd[k] != s then Get(c, k) else None)
  {
  }

  /** Assigning a pair that is already in a consistent cache changes nothing. */
  lemma PutPresent(c: Bidict, fd: int, s: Socket)
    requires Consistent(c)
    requires fd in c.fwd && c.fwd[fd] == s
    ensures Put(c, fd, s) == c
  {
    var r := Put(c, fd, s);
    forall k | k in c.fwd && k != fd
      ensures c.fwd[k] != s
    {
      assert c.inv[c.fwd[k]] == k;
    }
    assert r.fwd == c.fwd;
    assert r.inv == c.inv;
  }

  /** Assigning the same pair twice is the same as assigning it once. */
  lemma PutIdempotent(c: Bidict, fd: int, s: Socket)
    ensures Put(Put(c, fd, s), fd, s) == Put(c, fd, s)
  {
    var r := Put(c, fd, s);
    var rr := Put(r, fd, s);
    assert rr.fwd == r.fwd;
    assert rr.inv == r.inv;
  }

  /** The cache after a run of successful stores, each the pair (fileno(), socket). */
  function PutAll(c: Bidict, stores: seq<(int, Socket)>): Bidict
    decreases |stores|
  {
    if |stores| == 0 then c
    else PutAll(Put(c, stores[0].0, stores[0].1), stores[1..])
  }

  /** A run of stores keeps the cache one-to-one. */
  lemma {:induction false} PutAllConsistent(c: Bidict, stores: seq<(int, Socket)>)
    requires Consistent(c)
    ensures Consistent(PutAll(c, stores))
    decreases |stores|
  {
    if |stores| > 0 {
      PutConsistent(c, stores[0].0, stores[0].1);
      PutAllConsistent(Put(c, stores[0].0, stores[0].1), stores[1..]);
    }
  }

  /** A descriptor that was not cached before and that no store used reads as None. */
  lemma {:induction false} NeverStoredReadsNone(c: Bidict, stores: seq<(int, Socket)>, fd: int)
    requires fd !in c.fwd
    requires forall i :: 0 <= i < |stores| ==> stores[i].0 != fd
    ensures Get(PutAll(c, stores), fd) == None
    decreases |stores|
  {
    if |stores| > 0 {
      PutKeepsOthers(c, stores[0].0, stores[0].1, fd);
      NeverStoredReadsNone(Put(c, stores[0].0, stores[0].1), stores[1..], fd);
    }
  }

  /** The shared `cache` of `SocketField`, updated in place by
      `typecast_for_storage` and read by `typecast_for_read`. */
  class SocketField {
    var cache: Bidict

    ghost predicate Valid()
      reads this
    {
      Consistent(cache)
    }

    constructor ()
      ensures Valid() && cache == Empty
    {
      cache := Empty;
    }

    /** `typecast_for_read`: the socket stored under a descriptor, found
        through either direction of the cache. */
    function TypecastForRead(value: int): (r: Option<Socket>)
      reads this
      ensures Valid() ==> (r.None? <==> value !in cache.inv.Values)
      ensures Valid() && r.Some? ==> r.value in cache.inv && cache.inv[r.value] == value
    {
      Get(cache, value)
    }

    /** `typecast_for_storage`: the integer to persist for `value`, where
        `fileno` is what `value.fileno()` answers now (None: it raised). A
        working descriptor is (re)assigned to the socket; otherwise the
        descriptor already cached for the socket is returned, if any. */
    method TypecastForStorage(value: Option<Socket>, fileno: Option<int>) returns (r: Option<int>)
      requires Valid()
      modifies this
      ensures Valid()
      ensures value.None? ==> r == None && cache == old(cache)
      ensures value.Some? && fileno.Some? ==>
                r == fileno && cache == Put(old(cache), fileno.value, value.value)
      ensures value.Some? && fileno.None? ==>
                r == GetInverse(old(cache), value.value) && cache == old(cache)
    {
      if value.None? {
        return None;
      }
      var s := value.value;
      match fileno
      case Some(fd) =>
        PutConsistent(cache, fd, s);
        cache := Put(cache, fd, s);
        r := Some(fd);
      case None =>
        if s in cache.inv {
          var fd := cache.inv[s];
          PutPresent(cache, fd, s);
          cache := Put(cache, fd, s);
          r := Some(fd);
        } else {
          r := None;
        }
    }
  }

  /** A socket stored twice while its descriptor works: the same descriptor both
      times, the cache unchanged by the second store, and a read gives the socket. */
  method StoreTwice(field: SocketField, s: Socket, fd: int) returns (first: Option<int>, second: Option<int>)
    requires field.Valid()
    modifies field
    ensures field.Valid()
    ensures first == second == Some(fd)
    ensures field.TypecastForRead(fd) == Some(s)
    ensures field.cache == Put(old(field.cache), fd, s)
  {
    first := field.TypecastForStorage(Some(s), Some(fd));
    ghost var afterFirst := field.cache;
    second := field.TypecastForStorage(Some(s), Some(fd));
    PutIdempotent(old(field.cache), fd, s);
    assert field.cache == afterFirst;
  }
}
