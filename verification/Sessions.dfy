/**
 The SIP session table of the two routing daemons: open addressing with a window of 1024 probes, deletes that
 clear a slot and lookups that walk over empty slots. The table size is a parameter (32768 in one daemon and
 65536 in the other).
 */
module Sessions {
  import opened Wrappers

  const WINDOW: nat := 1024
  const TWO32: nat := 0x1_0000_0000
  /** `char call_id[128]` leaves room for 127 characters. */
  const ROOM: nat := 127

  type KeyByte = b: int | 0 < b < 256 witness 1
  /** A C string, without its terminator. */
  type Key = seq<KeyByte>

  datatype Peer = Peer(ip: nat, port: nat, len: nat)

  /** A slot is empty when its call id is the empty string. */
  datatype Slot = Slot(key: Key, peer: Peer)

  // ---------------------------------------------------------------- hash

  /** The hash as the loop computes it, wrapping to 32 bits in every step. */
  function Hash32(key: Key): (h: nat)
    ensures h < TWO32
  {
    if key == [] then 5381
    else
      var h := Hash32(key[..|key| - 1]);
      ((h * 32 % TWO32 + h) % TWO32 + key[|key| - 1]) % TWO32
  }

  /** The same polynomial over unbounded integers. */
  function Poly(key: Key): nat {
    if key == [] then 5381 else Poly(key[..|key| - 1]) * 33 + key[|key| - 1]
  }

  lemma WrapOnce(p: nat, h: nat, c: nat)
    requires h == p % TWO32
    ensures ((h * 32 % TWO32 + h) % TWO32 + c) % TWO32 == (p * 33 + c) % TWO32
  {
    Multiple(h * 33, -(h * 32 / TWO32));
    Multiple(h * 33 + c, -(h * 33 / TWO32));
    Multiple(h * 33 + c, 33 * (p / TWO32));
  }

  lemma Multiple(x: int, k: int)
    ensures (x + k * TWO32) % TWO32 == x % TWO32
  {
  }

  /** Wrapping in every step is the same as wrapping once. */
  lemma {:induction false} HashIsPoly(key: Key)
    ensures Hash32(key) == Poly(key) % TWO32
  {
    if key != [] {
      HashIsPoly(key[..|key| - 1]);
      WrapOnce(Poly(key[..|key| - 1]), Hash32(key[..|key| - 1]), key[|key| - 1]);
    }
  }

  /** The hash in numbers: it starts at 5381, and every character multiplies by 33 and is added. */
  lemma HashSteps(key: Key, c: KeyByte)
    ensures Hash32([]) == 5381
    ensures Hash32(key + [c]) == (33 * Hash32(key) + c) % 0x1_0000_0000
  {
    hide Hash32;
    HashIsPoly([]);
    HashIsPoly(key);
    HashIsPoly(key + [c]);
    assert (key + [c])[..|key|] == key;
    Multiple(33 * Hash32(key) + c, 33 * (Poly(key) / TWO32));
  }

  // ---------------------------------------------------------------- probing

  /** The slot of the i-th probe for a key in a table of n slots. */
  function Probe(n: nat, key: Key, i: nat): (s: nat)
    requires n > 0
    ensures s < n
  {
    (Hash32(key) % n + i) % n
  }

  /** Within the window no slot is probed twice. */
  lemma ProbesDiffer(n: nat, key: Key, i: nat, j: nat)
    requires WINDOW <= n && i < j < WINDOW
    ensures Probe(n, key, i) != Probe(n, key, j)
  {
    hide Hash32;
    var h := Hash32(key) % n;
    WrapsOnce(h + i, n);
    WrapsOnce(h + j, n);
  }

  lemma WrapsOnce(x: nat, n: nat)
    requires 0 < n && x < 2 * n
    ensures x % n == if x < n then x else x - n
  {
    if x >= n {
      assert x / n == 1 by {
        assert x == x / n * n + x % n;
      }
    }
  }

  /** The key found by the i-th probe. */
  function KeyAt(t: seq<Slot>, key: Key, i: nat): Key
    requires |t| > 0
  {
    t[Probe(|t|, key, i)].key
  }

  /** The first probe from i on that hits an empty slot or the key itself. */
  function Place(t: seq<Slot>, key: Key, i: nat): Option<nat>
    requires |t| > 0
    decreases WINDOW - i
  {
    if i >= WINDOW then None
    else if KeyAt(t, key, i) == [] || KeyAt(t, key, i) == key then Some(i)
    else Place(t, key, i + 1)
  }

  /** The first probe from i on that hits the key, walking over empty slots. */
  function Locate(t: seq<Slot>, key: Key, i: nat): Option<nat>
    requires |t| > 0
    decreases WINDOW - i
  {
    if i >= WINDOW then None
    else if KeyAt(t, key, i) != [] && KeyAt(t, key, i) == key then Some(i)
    else Locate(t, key, i + 1)
  }

  lemma {:induction false} PlaceIsFirst(t: seq<Slot>, key: Key, i: nat)
    requires |t| > 0
    ensures var p := Place(t, key, i);
            && (p.Some? ==> i <= p.value < WINDOW && (KeyAt(t, key, p.value) == [] || KeyAt(t, key, p.value) == key))
            && (forall j :: i <= j < (if p.Some? then p.value else WINDOW) ==>
                  KeyAt(t, key, j) != [] && KeyAt(t, key, j) != key)
    decreases WINDOW - i
  {
    hide KeyAt;
    if i < WINDOW && KeyAt(t, key, i) != [] && KeyAt(t, key, i) != key {
      PlaceIsFirst(t, key, i + 1);
    }
  }

  lemma {:induction false} LocateIsFirst(t: seq<Slot>, key: Key, i: nat)
    requires |t| > 0
    ensures var p := Locate(t, key, i);
            && (p.Some? ==> i <= p.value < WINDOW && key != [] && KeyAt(t, key, p.value) == key)
            && (forall j :: i <= j < (if p.Some? then p.value else WINDOW) ==> key == [] || KeyAt(t, key, j) != key)
    decreases WINDOW - i
  {
    hide KeyAt;
    if i < WINDOW && (key == [] || KeyAt(t, key, i) != key) {
      LocateIsFirst(t, key, i + 1);
    }
  }

  /** The probe found is the only one that fits the description. */
  lemma LocateAt(t: seq<Slot>, key: Key, i: nat)
    requires |t| > 0 && i < WINDOW && key != [] && KeyAt(t, key, i) == key
    requires forall j :: 0 <= j < i ==> KeyAt(t, key, j) != key
    ensures Locate(t, key, 0) == Some(i)
  {
    hide KeyAt, Locate;
    LocateIsFirst(t, key, 0);
  }

  // ---------------------------------------------------------------- the three operations

  /** What `snprintf` leaves of a call id. */
  function Cut(key: Key): Key {
    if |key| <= ROOM then key else key[..ROOM]
  }

  function Store(t: seq<Slot>, key: Key, peer: Peer): (t': seq<Slot>)
    requires |t| > 0
    ensures |t'| == |t|
  {
    var p := Place(t, key, 0);
    if p.None? then t else t[Probe(|t|, key, p.value) := Slot(Cut(key), peer)]
  }

  function Find(t: seq<Slot>, key: Key): Option<Peer>
    requires |t| > 0
  {
    var p := Locate(t, key, 0);
    if p.None? then None else Some(t[Probe(|t|, key, p.value)].peer)
  }

  function Delete(t: seq<Slot>, key: Key): (t': seq<Slot>)
    requires |t| > 0
    ensures |t'| == |t|
  {
    var p := Locate(t, key, 0);
    if p.None? then t else t[Probe(|t|, key, p.value) := t[Probe(|t|, key, p.value)].(key := [])]
  }

  /** A call id the table can hold. */
  predicate Fits(key: Key) { 0 < |key| <= ROOM }

  predicate Valid(t: seq<Slot>) {
    WINDOW <= |t| && forall i :: 0 <= i < |t| ==> |t[i].key| <= ROOM
  }

  lemma StoreValid(t: seq<Slot>, key: Key, peer: Peer)
    requires Valid(t)
    ensures Valid(Store(t, key, peer)) && Valid(Delete(t, key))
  {
    hide Place, Locate, Probe;
  }

  // ---------------------------------------------------------------- what a lookup sees

  /** A change of one slot that neither removes nor adds the key is invisible to its lookup. */
  lemma {:induction false} Unseen(t: seq<Slot>, s: nat, x: Slot, key: Key, i: nat)
    requires s < |t| && key != [] && t[s].key != key && x.key != key
    ensures Locate(t[s := x], key, i) == Locate(t, key, i)
    decreases WINDOW - i
  {
    hide Probe;
    if i < WINDOW {
      Unseen(t, s, x, key, i + 1);
    }
  }

  lemma FindUnseen(t: seq<Slot>, s: nat, x: Slot, key: Key)
    requires s < |t| && key != [] && t[s].key != key && x.key != key
    ensures Find(t[s := x], key) == Find(t, key)
  {
    hide Locate, Probe;
    Unseen(t, s, x, key, 0);
    LocateIsFirst(t, key, 0);
  }

  lemma NoEmptyKey(t: seq<Slot>)
    requires |t| > 0
    ensures Find(t, []) == None
  {
    hide Locate;
    LocateIsFirst(t, [], 0);
  }

  /** Operations on one call id never change what a lookup of another returns. */
  lemma OthersUntouched(t: seq<Slot>, key: Key, peer: Peer, other: Key)
    requires |t| > 0
    ensures other != key && other != Cut(key) ==> Find(Store(t, key, peer), other) == Find(t, other)
    ensures other != key ==> Find(Delete(t, key), other) == Find(t, other)
  {
    hide Place, Locate, Probe, Find;
    if other == [] {
      NoEmptyKey(t);
      NoEmptyKey(Store(t, key, peer));
      NoEmptyKey(Delete(t, key));
    } else {
      PlaceIsFirst(t, key, 0);
      LocateIsFirst(t, key, 0);
      var p, q := Place(t, key, 0), Locate(t, key, 0);
      if p.Some? && other != Cut(key) && other != key {
        FindUnseen(t, Probe(|t|, key, p.value), Slot(Cut(key), peer), other);
      }
      if q.Some? && other != key {
        var s := Probe(|t|, key, q.value);
        FindUnseen(t, s, t[s].(key := []), other);
      }
    }
  }

  /** A lookup right after a store returns the stored address exactly when the call id fits a slot and the
      window had room. */
  lemma FindAfterStore(t: seq<Slot>, key: Key, peer: Peer)
    requires Valid(t)
    ensures Find(Store(t, key, peer), key) == Some(peer) <==> Fits(key) && Place(t, key, 0).Some?
  {
    hide Place, Locate, Probe;
    var t' := Store(t, key, peer);
    PlaceIsFirst(t, key, 0);
    LocateIsFirst(t', key, 0);
    var p := Place(t, key, 0);
    if Fits(key) && p.Some? {
      forall j | 0 <= j < p.value
        ensures KeyAt(t', key, j) != key
      {
        assert KeyAt(t, key, j) != key;
        ProbesDiffer(|t|, key, j, p.value);
      }
      LocateAt(t', key, p.value);
    } else if !Fits(key) {
      StoreValid(t, key, peer);
    }
  }

  /** The i-th slot a key is tried at is free for it. */
  predicate FreeAt(t: seq<Slot>, key: Key, i: nat)
    requires |t| > 0
  {
    t[(Hash32(key) + i) % |t|].key == [] || t[(Hash32(key) + i) % |t|].key == key
  }

  /** In numbers: a stored session is found exactly if its call id has 1 to 127 characters and one of the 1024 slots
      from the hash on is empty or holds that call id. */
  lemma StoredExactly(t: seq<Slot>, key: Key, peer: Peer)
    requires Valid(t)
    ensures Find(Store(t, key, peer), key) == Some(peer)
            <==> 0 < |key| <= 127 && exists i :: 0 <= i < 1024 && FreeAt(t, key, i)
  {
    hide Place, Hash32, Find, Store;
    FindAfterStore(t, key, peer);
    PlaceIsFirst(t, key, 0);
    forall i | 0 <= i < 1024
      ensures FreeAt(t, key, i) <==> KeyAt(t, key, i) == [] || KeyAt(t, key, i) == key
    {
      ModOnce(Hash32(key), i, |t|);
    }
  }

  lemma ModOnce(h: nat, i: nat, n: nat)
    requires n > 0
    ensures (h % n + i) % n == (h + i) % n
  {
    var q := h / n;
    assert h == q * n + h % n;
    ModShift(h % n + i, q, n);
  }

  lemma {:induction false} ModShift(x: nat, q: nat, n: nat)
    requires n > 0
    ensures (q * n + x) % n == x % n
    decreases q
  {
    if q > 0 {
      ModShift(x, q - 1, n);
      assert q * n + x == ((q - 1) * n + x) + n;
      ModStep((q - 1) * n + x, n);
    }
  }

  lemma ModStep(y: nat, n: nat)
    requires n > 0
    ensures (y + n) % n == y % n
  {
    var a := y / n;
    assert y == a * n + y % n;
    assert y + n == (a + 1) * n + y % n;
    Remainder(y + n, a + 1, y % n, n);
  }

  lemma Remainder(x: nat, a: nat, r: nat, n: nat)
    requires n > 0 && x == a * n + r && r < n
    ensures x % n == r
  {
    TimesMore(x / n, a, n);
    TimesMore(a, x / n, n);
  }

  lemma TimesMore(a: nat, b: nat, n: nat)
    ensures a < b ==> (a + 1) * n <= b * n
  {
  }

  // ---------------------------------------------------------------- copies

  /** The call id sits in two slots of its window. */
  predicate Twice(t: seq<Slot>, key: Key)
    requires |t| > 0
  {
    exists i, j :: 0 <= i < j < WINDOW && KeyAt(t, key, i) == key && KeyAt(t, key, j) == key
  }

  /** After a delete the call id is gone exactly when it sat in one slot only. */
  lemma GoneAfterDelete(t: seq<Slot>, key: Key)
    requires Valid(t) && key != []
    ensures Find(Delete(t, key), key) == None <==> !Twice(t, key)
  {
    hide Locate, Probe;
    var t' := Delete(t, key);
    LocateIsFirst(t, key, 0);
    LocateIsFirst(t', key, 0);
    var p := Locate(t, key, 0);
    if p.Some? {
      forall j | 0 <= j < WINDOW && j != p.value
        ensures KeyAt(t', key, j) == KeyAt(t, key, j)
      {
        if j < p.value { ProbesDiffer(|t|, key, j, p.value); } else { ProbesDiffer(|t|, key, p.value, j); }
      }
    }
  }

  /** A store puts a second copy of a live call id exactly when an empty slot comes before the first one. */
  lemma StoreDoubles(t: seq<Slot>, key: Key, peer: Peer)
    requires Valid(t) && Fits(key) && !Twice(t, key) && Place(t, key, 0).Some?
    ensures Twice(Store(t, key, peer), key) <==> Find(t, key).Some? && KeyAt(t, key, Place(t, key, 0).value) == []
  {
    hide Place, Locate, Probe;
    var t' := Store(t, key, peer);
    PlaceIsFirst(t, key, 0);
    LocateIsFirst(t, key, 0);
    var p, q := Place(t, key, 0).value, Locate(t, key, 0);
    forall j | 0 <= j < WINDOW && j != p
      ensures KeyAt(t', key, j) == KeyAt(t, key, j)
    {
      if j < p { ProbesDiffer(|t|, key, j, p); } else { ProbesDiffer(|t|, key, p, j); }
    }
    if q.Some? && KeyAt(t, key, p) == [] {
      assert p < q.value && KeyAt(t', key, p) == key && KeyAt(t', key, q.value) == key;
    }
  }

  /** No operation on one call id makes two copies of another. */
  lemma OthersOnce(t: seq<Slot>, key: Key, peer: Peer, other: Key)
    requires Valid(t) && !Twice(t, other) && other != []
    ensures other != key && other != Cut(key) ==> !Twice(Store(t, key, peer), other)
    ensures !Twice(Delete(t, key), other)
  {
    hide Place, Locate, Probe;
    var t1, t2 := Store(t, key, peer), Delete(t, key);
    forall i | 0 <= i < WINDOW && KeyAt(t, other, i) != other
      ensures other != key && other != Cut(key) ==> KeyAt(t1, other, i) != other
      ensures KeyAt(t2, other, i) != other
    {
    }
  }

  /** Storing and then deleting a call id removes it, or brings the address stored before back to light: the
      latter exactly when the store went into an empty slot before a live copy. */
  lemma StoreThenDelete(t: seq<Slot>, key: Key, peer: Peer)
    requires Valid(t) && Fits(key) && !Twice(t, key) && Place(t, key, 0).Some?
    ensures var doubled := Find(t, key).Some? && KeyAt(t, key, Place(t, key, 0).value) == [];
            Find(Delete(Store(t, key, peer), key), key) == if doubled then Find(t, key) else None
  {
    hide Place, Locate, Probe;
    var t1 := Store(t, key, peer);
    var t2 := Delete(t1, key);
    StoreValid(t, key, peer);
    GoneAfterDelete(t1, key);
    StoreDoubles(t, key, peer);
    PlaceIsFirst(t, key, 0);
    LocateIsFirst(t, key, 0);
    var p, q := Place(t, key, 0).value, Locate(t, key, 0);
    if q.Some? && KeyAt(t, key, p) == [] {
      CopyReturns(t, key, peer, p, q.value);
    }
  }

  lemma CopyReturns(t: seq<Slot>, key: Key, peer: Peer, p: nat, q: nat)
    requires Valid(t) && Fits(key) && Place(t, key, 0) == Some(p) && Locate(t, key, 0) == Some(q)
             && KeyAt(t, key, p) == []
    requires p < q < WINDOW
    ensures Find(Delete(Store(t, key, peer), key), key) == Find(t, key)
  {
    hide Place, Locate, Probe;
    var t1 := Store(t, key, peer);
    var t2 := Delete(t1, key);
    PlaceIsFirst(t, key, 0);
    LocateIsFirst(t, key, 0);
    forall j | 0 <= j < WINDOW && j != p
      ensures Probe(|t|, key, j) != Probe(|t|, key, p) && KeyAt(t1, key, j) == KeyAt(t, key, j)
    {
      if j < p { ProbesDiffer(|t|, key, j, p); } else { ProbesDiffer(|t|, key, p, j); }
    }
    LocateAt(t1, key, p);
    assert forall j :: 0 <= j < WINDOW && j != p ==> KeyAt(t2, key, j) == KeyAt(t1, key, j);
    LocateAt(t2, key, q);
  }

  // ---------------------------------------------------------------- runs

  datatype Call = Put(key: Key, peer: Peer) | Drop(key: Key) | Ask(key: Key)

  function Step(t: seq<Slot>, c: Call): (t': seq<Slot>)
    requires |t| > 0
    ensures |t'| == |t|
  {
    match c
    case Put(key, peer) => Store(t, key, peer)
    case Drop(key) => Delete(t, key)
    case Ask(_) => t
  }

  /** What the lookups of a run return. */
  function Answers(t: seq<Slot>, run: seq<Call>): seq<Option<Peer>>
    requires |t| > 0
    decreases |run|
  {
    if run == [] then []
    else (if run[0].Ask? then [Find(t, run[0].key)] else []) + Answers(Step(t, run[0]), run[1..])
  }

  function MapStep(m: map<Key, Peer>, c: Call): map<Key, Peer> {
    match c
    case Put(key, peer) => if key == [] then m else m[key := peer]
    case Drop(key) => m - {key}
    case Ask(_) => m
  }

  function Get(m: map<Key, Peer>, key: Key): Option<Peer> {
    if key in m then Some(m[key]) else None
  }

  function MapAnswers(m: map<Key, Peer>, run: seq<Call>): seq<Option<Peer>>
    decreases |run|
  {
    if run == [] then []
    else (if run[0].Ask? then [Get(m, run[0].key)] else []) + MapAnswers(MapStep(m, run[0]), run[1..])
  }

  /** Call ids are cut to 127 characters by the parser; the window has room; and a live call id is not stored
      again below an empty slot. */
  predicate Allowed(t: seq<Slot>, c: Call)
    requires |t| > 0
  {
    c.Put? && c.key != [] ==>
      && Fits(c.key) && Place(t, c.key, 0).Some?
      && !(Find(t, c.key).Some? && KeyAt(t, c.key, Place(t, c.key, 0).value) == [])
  }

  predicate AllowedRun(t: seq<Slot>, run: seq<Call>)
    requires |t| > 0
    decreases |run|
  {
    run == [] || (Allowed(t, run[0]) && AllowedRun(Step(t, run[0]), run[1..]))
  }

  ghost predicate Refines(t: seq<Slot>, m: map<Key, Peer>) {
    && Valid(t)
    && (forall key: Key :: Find(t, key) == Get(m, key))
    && (forall key: Key :: key != [] ==> !Twice(t, key))
  }

  lemma PutRefines(t: seq<Slot>, m: map<Key, Peer>, key: Key, peer: Peer)
    requires Refines(t, m) && Allowed(t, Put(key, peer)) && key != []
    ensures Refines(Store(t, key, peer), m[key := peer])
  {
    hide Place, Locate, Probe, Twice, Find, Store, KeyAt;
    var t' := Store(t, key, peer);
    StoreValid(t, key, peer);
    FindAfterStore(t, key, peer);
    StoreDoubles(t, key, peer);
    forall other: Key
      ensures Find(t', other) == Get(m[key := peer], other) && (other != [] ==> !Twice(t', other))
    {
      OthersUntouched(t, key, peer, other);
      if other != [] {
        OthersOnce(t, key, peer, other);
      }
    }
  }

  lemma DropRefines(t: seq<Slot>, m: map<Key, Peer>, key: Key)
    requires Refines(t, m)
    ensures Refines(Delete(t, key), m - {key})
  {
    hide Place, Locate, Probe, Twice, Find, Delete, KeyAt;
    var t' := Delete(t, key);
    StoreValid(t, key, Peer(0, 0, 0));
    NoEmptyKey(t');
    if key != [] {
      GoneAfterDelete(t, key);
    }
    forall other: Key
      ensures Find(t', other) == Get(m - {key}, other) && (other != [] ==> !Twice(t', other))
    {
      OthersUntouched(t, key, Peer(0, 0, 0), other);
      if other != [] {
        OthersOnce(t, key, Peer(0, 0, 0), other);
      }
    }
  }

  /** Storing the empty call id changes nothing a lookup could see. */
  lemma EmptyRefines(t: seq<Slot>, m: map<Key, Peer>, peer: Peer)
    requires Refines(t, m)
    ensures Refines(Store(t, [], peer), m)
  {
    hide Place, Locate, Probe, Twice, Find, Store, KeyAt;
    var t' := Store(t, [], peer);
    StoreValid(t, [], peer);
    forall other: Key
      ensures Find(t', other) == Get(m, other) && (other != [] ==> !Twice(t', other))
    {
      if other == [] {
        NoEmptyKey(t);
        NoEmptyKey(t');
      } else {
        OthersUntouched(t, [], peer, other);
        OthersOnce(t, [], peer, other);
      }
    }
  }

  /** In every such run the table answers every lookup as a map would. */
  lemma {:induction false} RunIsMap(t: seq<Slot>, m: map<Key, Peer>, run: seq<Call>)
    requires Refines(t, m) && AllowedRun(t, run)
    ensures Answers(t, run) == MapAnswers(m, run)
    decreases |run|
  {
    if run != [] {
      var c := run[0];
      match c {
        case Put(key, peer) =>
          if key == [] { EmptyRefines(t, m, peer); } else { PutRefines(t, m, key, peer); }
        case Drop(key) => DropRefines(t, m, key);
        case Ask(key) =>
      }
      hide Twice, Find, Place, Store, Delete;
      RunIsMap(Step(t, c), MapStep(m, c), run[1..]);
    }
  }

  lemma EmptyTable(t: seq<Slot>)
    requires WINDOW <= |t| && forall i :: 0 <= i < |t| ==> t[i].key == []
    ensures Refines(t, map[])
  {
    hide Locate, Probe;
    forall key: Key
      ensures Find(t, key) == None
    {
      LocateIsFirst(t, key, 0);
    }
  }

  lemma PolyTwo(a: KeyByte, b: KeyByte)
    ensures Poly([a, b]) == (5381 * 33 + a) * 33 + b
  {
    var ab: Key, one: Key := [a, b], [a];
    assert ab[..1] == one && one[..0] == [];
    assert Poly(one) == 5381 * 33 + a;
  }

  /** Two call ids with the same hash. */
  lemma Colliding()
    ensures Hash32([1, 34]) == Hash32([2, 1])
  {
    HashIsPoly([1, 34]);
    HashIsPoly([2, 1]);
    PolyTwo(1, 34);
    PolyTwo(2, 1);
  }

  /** A call id displaced by a colliding one sits at the second probe, below the slot that one leaves. */
  lemma Displaced(t: seq<Slot>, a: Key, b: Key, x: Peer, y: Peer)
    requires WINDOW <= |t| && (forall i :: 0 <= i < |t| ==> t[i].key == [])
    requires Fits(a) && Fits(b) && a != b && Hash32(a) == Hash32(b)
    ensures var t3 := Delete(Store(Store(t, a, x), b, y), a);
            && Valid(t3) && KeyAt(t3, b, 0) == [] && Locate(t3, b, 0) == Some(1) && t3[Probe(|t3|, b, 1)].peer == y
  {
    hide Hash32;
    ProbesDiffer(|t|, b, 0, 1);
    var s0, s1 := Probe(|t|, b, 0), Probe(|t|, b, 1);
    assert Store(t, a, x) == t[s0 := Slot(a, x)];
    assert Store(t[s0 := Slot(a, x)], b, y) == t[s0 := Slot(a, x)][s1 := Slot(b, y)];
  }

  /** The condition is needed: from any empty table, a call id stored again after a colliding one was deleted
      is still found after its own delete. */
  lemma StaleSession(t: seq<Slot>, a: Key, b: Key, x: Peer, y: Peer, z: Peer)
    requires WINDOW <= |t| && (forall i :: 0 <= i < |t| ==> t[i].key == [])
    requires Fits(a) && Fits(b) && a != b && Hash32(a) == Hash32(b)
    ensures Answers(t, [Put(a, x), Put(b, y), Drop(a), Put(b, z), Drop(b), Ask(b)]) == [Some(y)]
  {
    var t3 := Delete(Store(Store(t, a, x), b, y), a);
    var t5 := Delete(Store(t3, b, z), b);
    Displaced(t, a, b, x, y);
    CopyReturns(t3, b, z, 0, 1);
    assert Find(t5, b) == Some(y);
    hide *;
    SixAnswers(t, Put(a, x), Put(b, y), Drop(a), Put(b, z), Drop(b), b);
  }

  /** The same at two call ids of two bytes, which share a hash, in a table of any size: a map would have
      nothing to answer. */
  lemma StaleSample(t: seq<Slot>, x: Peer, y: Peer, z: Peer)
    requires WINDOW <= |t| && (forall i :: 0 <= i < |t| ==> t[i].key == [])
    ensures var run := [Put([1, 34], x), Put([2, 1], y), Drop([1, 34]), Put([2, 1], z), Drop([2, 1]), Ask([2, 1])];
            Answers(t, run) == [Some(y)] && MapAnswers(map[], run) == [None]
  {
    hide Hash32, Answers, MapAnswers;
    var a: Key, b: Key := [1, 34], [2, 1];
    Colliding();
    assert a[0] != b[0];
    StaleSession(t, a, b, x, y, z);
    SixMapAnswers(Put(a, x), Put(b, y), Drop(a), Put(b, z), Drop(b), b);
  }

  lemma SixMapAnswers(c0: Call, c1: Call, c2: Call, c3: Call, c4: Call, key: Key)
    requires !c0.Ask? && !c1.Ask? && !c2.Ask? && !c3.Ask? && !c4.Ask?
    ensures MapAnswers(map[], [c0, c1, c2, c3, c4, Ask(key)])
         == [Get(MapStep(MapStep(MapStep(MapStep(MapStep(map[], c0), c1), c2), c3), c4), key)]
  {
    hide MapStep, Get;
    OneMapAnswer(map[], c0, [c1, c2, c3, c4, Ask(key)]);
    OneMapAnswer(MapStep(map[], c0), c1, [c2, c3, c4, Ask(key)]);
    OneMapAnswer(MapStep(MapStep(map[], c0), c1), c2, [c3, c4, Ask(key)]);
    OneMapAnswer(MapStep(MapStep(MapStep(map[], c0), c1), c2), c3, [c4, Ask(key)]);
    OneMapAnswer(MapStep(MapStep(MapStep(MapStep(map[], c0), c1), c2), c3), c4, [Ask(key)]);
    OneMapAnswer(MapStep(MapStep(MapStep(MapStep(MapStep(map[], c0), c1), c2), c3), c4), Ask(key), []);
  }

  lemma OneMapAnswer(m: map<Key, Peer>, c: Call, rest: seq<Call>)
    ensures MapAnswers(m, [c] + rest) == (if c.Ask? then [Get(m, c.key)] else []) + MapAnswers(MapStep(m, c), rest)
  {
    assert ([c] + rest)[1..] == rest;
  }

  lemma SixAnswers(t: seq<Slot>, c0: Call, c1: Call, c2: Call, c3: Call, c4: Call, key: Key)
    requires |t| > 0 && !c0.Ask? && !c1.Ask? && !c2.Ask? && !c3.Ask? && !c4.Ask?
    ensures Answers(t, [c0, c1, c2, c3, c4, Ask(key)])
            == [Find(Step(Step(Step(Step(Step(t, c0), c1), c2), c3), c4), key)]
  {
    hide Step, Find;
    OneAnswer(t, c0, [c1, c2, c3, c4, Ask(key)]);
    OneAnswer(Step(t, c0), c1, [c2, c3, c4, Ask(key)]);
    OneAnswer(Step(Step(t, c0), c1), c2, [c3, c4, Ask(key)]);
    OneAnswer(Step(Step(Step(t, c0), c1), c2), c3, [c4, Ask(key)]);
    OneAnswer(Step(Step(Step(Step(t, c0), c1), c2), c3), c4, [Ask(key)]);
    OneAnswer(Step(Step(Step(Step(Step(t, c0), c1), c2), c3), c4), Ask(key), []);
  }

  lemma OneAnswer(t: seq<Slot>, c: Call, rest: seq<Call>)
    requires |t| > 0
    ensures Answers(t, [c] + rest) == (if c.Ask? then [Find(t, c.key)] else []) + Answers(Step(t, c), rest)
  {
    assert ([c] + rest)[1..] == rest;
  }
}

/** The table as the global array the daemons update in place. */
module SessionsCode {
  import opened Wrappers
  import opened Sessions

  class SessionTable {
    const slots: array<Slot>

    ghost predicate Valid()
      reads slots
    {
      Sessions.Valid(slots[..])
    }

    constructor (size: nat)
      requires size >= WINDOW
      ensures Valid() && fresh(slots) && slots.Length == size
      ensures Refines(slots[..], map[])
    {
      slots := new Slot[size](_ => Slot([], Peer(0, 0, 0)));
      new;
      EmptyTable(slots[..]);
    }

    method HashCallId(key: Key) returns (h: nat)
      requires slots.Length > 0
      ensures h == Hash32(key) % slots.Length
    {
      h := 5381;
      for i := 0 to |key|
        invariant h == Hash32(key[..i])
      {
        h := ((h * 32 % TWO32 + h) % TWO32 + key[i]) % TWO32;
        assert key[..i + 1][..i] == key[..i];
      }
      assert key[..|key|] == key;
      h := h % slots.Length;
    }

    method StoreSession(key: Key, peer: Peer)
      requires Valid()
      modifies slots
      ensures Valid() && slots[..] == Store(old(slots[..]), key, peer)
    {
      StoreValid(slots[..], key, peer);
      var idx := HashCallId(key);
      for i := 0 to WINDOW
        invariant slots[..] == old(slots[..])
        invariant Place(slots[..], key, 0) == Place(slots[..], key, i)
      {
        var cur := (idx + i) % slots.Length;
        assert slots[cur].key == KeyAt(slots[..], key, i);
        if slots[cur].key == [] || slots[cur].key == key {
          slots[cur] := Slot(Cut(key), peer);
          return;
        }
      }
    }

    method FindSession(key: Key) returns (peer: Option<Peer>)
      requires Valid()
      ensures peer == Find(slots[..], key)
    {
      var idx := HashCallId(key);
      for i := 0 to WINDOW
        invariant Locate(slots[..], key, 0) == Locate(slots[..], key, i)
      {
        var cur := (idx + i) % slots.Length;
        assert slots[cur].key == KeyAt(slots[..], key, i);
        if slots[cur].key != [] && slots[cur].key == key {
          return Some(slots[cur].peer);
        }
      }
      return None;
    }

    method DeleteSession(key: Key)
      requires Valid()
      modifies slots
      ensures Valid() && slots[..] == Delete(old(slots[..]), key)
    {
      StoreValid(slots[..], key, Peer(0, 0, 0));
      var idx := HashCallId(key);
      for i := 0 to WINDOW
        invariant slots[..] == old(slots[..])
        invariant Locate(slots[..], key, 0) == Locate(slots[..], key, i)
      {
        var cur := (idx + i) % slots.Length;
        assert slots[cur].key == KeyAt(slots[..], key, i);
        if slots[cur].key != [] && slots[cur].key == key {
          slots[cur] := slots[cur].(key := []);
          return;
        }
      }
    }
  }
}
