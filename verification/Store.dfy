/** The key store with expiry and batch eviction of the least recently used keys. */
module Stores {
  import opened Bytes
  import opened Sequences

  class Obj {
    const value: int
    var lastAccessedAt: int

    constructor (v: int, now: int)
      ensures value == v && lastAccessedAt == now
    {
      value := v;
      lastAccessedAt := now;
    }
  }

  /** A value and when it expires, if ever. */
  datatype Item = Item(value: int, deadline: Option<int>)

  const EVICTION_RATIO: real := 0.9

  function Ceil(x: real): (n: int)
    ensures n as real - 1.0 < x <= n as real
  {
    -((-x).Floor)
  }

  /** How many keys an eviction leaves. */
  function TargetCount(maxKeys: nat): (n: int)
    ensures 0 <= n <= maxKeys && (maxKeys > 1 ==> n < maxKeys) && 10 * (n - 1) < maxKeys <= 10 * n
  {
    Ceil(maxKeys as real * (1.0 - EVICTION_RATIO))
  }

  function ToEvict(count: nat, maxKeys: nat): (n: nat) {
    if count < maxKeys then 0
    else if count - TargetCount(maxKeys) < 1 then 1
    else count - TargetCount(maxKeys)
  }

  /** Nothing is evicted below the limit; at the limit all but the target are, and at least one. */
  lemma EvictsExactly(count: nat, maxKeys: nat)
    requires count <= maxKeys && maxKeys > 0
    ensures count < maxKeys ==> ToEvict(count, maxKeys) == 0
    ensures count == maxKeys > 1 ==> ToEvict(count, maxKeys) == count - TargetCount(maxKeys) > 0
    ensures count == maxKeys == 1 ==> ToEvict(count, maxKeys) == 1
  {
  }

  /** An eviction removes keys that exist and makes room for one more. */
  lemma MakesRoom(count: nat, maxKeys: nat)
    requires count <= maxKeys && maxKeys > 0
    ensures ToEvict(count, maxKeys) <= count && count - ToEvict(count, maxKeys) < maxKeys
  {
  }

  function Min(a: nat, b: nat): nat {
    if a < b then a else b
  }

  /** The heap of eviction candidates, by last access; which of several latest ones is on top
      is left open. */
  method Top(heap: map<Str, int>) returns (key: Str)
    requires heap != map[]
    ensures key in heap && forall k :: k in heap ==> heap[k] <= heap[key]
  {
    key :| key in heap;
    var rest := heap.Keys - {key};
    while rest != {}
      invariant key in heap && rest <= heap.Keys
      invariant forall k :: k in heap && k !in rest ==> heap[k] <= heap[key]
      decreases |rest|
    {
      var k :| k in rest;
      if heap[k] > heap[key] {
        key := k;
      }
      rest := rest - {k};
    }
  }

  /** `heap` holds the `n` least recently used of the keys `seen`, or all of them. */
  ghost predicate Oldest(heap: map<Str, int>, seen: set<Str>, access: map<Str, int>, n: nat) {
    && heap.Keys <= seen <= access.Keys && |heap| == Min(n, |seen|)
    && (forall k :: k in heap ==> heap[k] == access[k])
    && forall k, s :: k in heap && s in seen && s !in heap ==> access[k] <= access[s]
  }

  /** One more key offered to the heap. */
  method Offer(heap: map<Str, int>, k: Str, at: int, n: nat, ghost seen: set<Str>, ghost access: map<Str, int>)
    returns (r: map<Str, int>)
    requires n > 0 && Oldest(heap, seen, access, n) && k in access && k !in seen && at == access[k]
    ensures Oldest(r, seen + {k}, access, n)
  {
    if |heap| < n {
      assert heap.Keys == seen by { SameSize(heap.Keys, seen); }
      return heap[k := at];
    }
    var top := Top(heap);
    if at < heap[top] {
      assert (heap - {top}).Keys == heap.Keys - {top};
      return (heap - {top})[k := at];
    }
    return heap;
  }

  /** Different keys hold different objects. */
  ghost predicate Distinct(table: map<Str, Obj>) {
    forall j, k :: j in table && k in table && table[j] == table[k] ==> j == k
  }

  function Deadline(expires: map<Obj, int>, obj: Obj): Option<int> {
    if obj in expires then Some(expires[obj]) else None
  }

  /** A table and its deadlines as a map from keys to values with deadlines. */
  ghost function ViewOf(table: map<Str, Obj>, expires: map<Obj, int>): map<Str, Item> {
    map k | k in table :: Item(table[k].value, Deadline(expires, table[k]))
  }

  lemma DeleteView(table: map<Str, Obj>, expires: map<Obj, int>, k: Str)
    requires Distinct(table) && k in table
    ensures Distinct(table - {k}) && |table - {k}| == |table| - 1
    ensures ViewOf(table - {k}, expires - {table[k]}) == ViewOf(table, expires) - {k}
  {
    assert (table - {k}).Keys == table.Keys - {k};
  }

  ghost function ObjectsOf(table: map<Str, Obj>, keys: set<Str>): set<Obj> {
    set k | k in keys && k in table :: table[k]
  }

  /** No victim was used more recently than a key that is not one. */
  ghost predicate LeastRecent(victims: set<Str>, access: map<Str, int>) {
    forall k, s :: k in victims && k in access && s in access && s !in victims ==> access[k] <= access[s]
  }

  lemma OldestNone(access: map<Str, int>, n: nat)
    ensures Oldest(map[], {}, access, n)
  {
  }

  lemma OldestOfAll(heap: map<Str, int>, access: map<Str, int>, n: nat)
    requires Oldest(heap, access.Keys, access, n)
    ensures heap.Keys <= access.Keys && |heap.Keys| == Min(n, |access|) && LeastRecent(heap.Keys, access)
  {
  }

  lemma EvictNone(table: map<Str, Obj>, expires: map<Obj, int>)
    ensures table - {} == table && expires - ObjectsOf(table, {}) == expires && ObjectsOf(table, {}) == {}
    ensures forall access :: LeastRecent({}, access)
  {
  }

  /** How many keys are left. */
  lemma LeftBy<K, V>(m: map<K, V>, gone: set<K>)
    requires gone <= m.Keys
    ensures |m - gone| == |m| - |gone| && (|gone| == 0 <==> gone == {})
  {
    assert (m - gone).Keys == m.Keys - gone;
    assert |m.Keys| == |m.Keys - gone| + |gone|;
  }

  lemma NothingTaken<K, V>(m: map<K, V>)
    ensures m - {} == m
  {
  }

  lemma EvictMore(table: map<Str, Obj>, expires: map<Obj, int>, gone: set<Str>, k: Str)
    requires k in table && k !in gone
    ensures k in table - gone && (table - gone)[k] == table[k] && table - gone - {k} == table - (gone + {k})
    ensures expires - ObjectsOf(table, gone) - {table[k]} == expires - ObjectsOf(table, gone + {k})
  {
    assert ObjectsOf(table, gone + {k}) == ObjectsOf(table, gone) + {table[k]};
  }

  lemma EvictView(table: map<Str, Obj>, expires: map<Obj, int>, gone: set<Str>, obj: Obj)
    requires Distinct(table) && gone <= table.Keys && obj !in table.Values
    ensures ViewOf(table - gone, expires - ObjectsOf(table, gone)) == ViewOf(table, expires) - gone
    ensures Deadline(expires - ObjectsOf(table, gone), obj) == Deadline(expires, obj)
    ensures obj !in (table - gone).Values && |table - gone| == |table| - |gone|
  {
    KeysGone(table, gone);
    KeptDeadlines(table, expires, gone);
  }

  lemma KeptDeadlines(table: map<Str, Obj>, expires: map<Obj, int>, gone: set<Str>)
    requires Distinct(table) && gone <= table.Keys
    ensures forall k :: k in table && k !in gone ==>
              Deadline(expires - ObjectsOf(table, gone), table[k]) == Deadline(expires, table[k])
  {
    forall k | k in table && k !in gone
      ensures Deadline(expires - ObjectsOf(table, gone), table[k]) == Deadline(expires, table[k])
    {
      assert table[k] !in ObjectsOf(table, gone);
    }
  }

  lemma KeysGone<V>(m: map<Str, V>, gone: set<Str>)
    requires gone <= m.Keys
    ensures |m - gone| == |m| - |gone|
  {
    assert (m - gone).Keys == m.Keys - gone;
  }

  lemma KeyAdded<V>(m: map<Str, V>, k: Str, v: V)
    requires k !in m
    ensures |m[k := v]| == |m| + 1
  {
    assert m[k := v].Keys == m.Keys + {k};
  }

  lemma InsertView(table: map<Str, Obj>, expires: map<Obj, int>, k: Str, obj: Obj)
    requires Distinct(table) && obj !in table.Values && k !in table
    ensures Distinct(table[k := obj]) && |table[k := obj]| == |table| + 1
    ensures ViewOf(table[k := obj], expires) == ViewOf(table, expires)[k := Item(obj.value, Deadline(expires, obj))]
  {
    KeyAdded(table, k, obj);
    assert forall j :: j in table ==> table[j] in table.Values;
  }

  lemma ReplaceView(table: map<Str, Obj>, expires: map<Obj, int>, k: Str, obj: Obj, after: map<Obj, int>)
    requires Distinct(table) && obj !in table.Values && k in table
    requires forall o :: o != obj && o != table[k] ==> Deadline(after, o) == Deadline(expires, o)
    ensures Distinct(table[k := obj]) && |table[k := obj]| == |table|
    ensures ViewOf(table[k := obj], after) == ViewOf(table, expires)[k := Item(obj.value, Deadline(after, obj))]
  {
    assert table[k := obj].Keys == table.Keys;
  }

  class Store {
    const maxKeys: nat
    var table: map<Str, Obj>
    var expires: map<Obj, int>
    var numKeys: int

    ghost predicate Valid()
      reads this
    {
      && maxKeys > 0 && numKeys == |table| <= maxKeys
      && Distinct(table)
    }

    /** The store as a map from keys to values with deadlines. */
    ghost function View(): map<Str, Item>
      reads this
    {
      ViewOf(table, expires)
    }

    /** When each key was last used. */
    ghost function Access(): (m: map<Str, int>)
      reads this, table.Values
      ensures m.Keys == table.Keys
    {
      map k | k in table :: table[k].lastAccessedAt
    }

    constructor (limit: nat)
      requires limit > 0
      ensures Valid() && maxKeys == limit && View() == map[]
    {
      maxKeys := limit;
      table, expires, numKeys := map[], map[], 0;
    }

    function HasExpired(obj: Obj, now: int): bool
      reads this
    {
      obj in expires && expires[obj] <= now
    }

    /** Removes a key with its object's deadline. */
    method DeleteKey(k: Str, obj: Obj)
      requires Valid() && k in table && table[k] == obj
      modifies this
      ensures Valid() && table == old(table) - {k} && expires == old(expires) - {obj}
      ensures View() == old(View()) - {k}
    {
      hide Distinct, ViewOf;
      DeleteView(table, expires, k);
      table := table - {k};
      expires := expires - {obj};
      numKeys := numKeys - 1;
    }

    /** Never returns an expired object; a key found expired is deleted. */
    method Get(k: Str, now: int, touch: bool) returns (obj: Obj?)
      requires Valid()
      modifies this, table.Values`lastAccessedAt
      ensures Valid()
      ensures var was := old(View());
              var dead := k in was && was[k].deadline.Some? && was[k].deadline.value <= now;
              && (obj == null <==> k !in was || dead)
              && (obj != null ==> obj == old(table[k]) && obj.value == was[k].value)
              && View() == if dead then was - {k} else was
      ensures obj != null && touch ==> obj.lastAccessedAt == now
      ensures forall o :: o in old(table.Values) && (o != obj || !touch) ==> o.lastAccessedAt == old(o.lastAccessedAt)
    {
      obj := null;
      if k in table {
        obj := table[k];
        if HasExpired(obj, now) {
          DeleteKey(k, obj);
          obj := null;
        } else if touch {
          obj.lastAccessedAt := now;
        }
      }
    }

    /** Removes exactly the given number of keys, or all when there are fewer, none of them used
        more recently than a key that stays. */
    method EvictVictims(toEvict: nat) returns (ghost victims: set<Str>)
      requires Valid()
      modifies this
      ensures Valid() && victims <= old(table.Keys) && |victims| == Min(toEvict, old(|table|))
      ensures table == old(table) - victims && expires == old(expires) - ObjectsOf(old(table), victims)
      ensures LeastRecent(victims, old(Access()))
    {
      hide Distinct, ObjectsOf, Oldest, LeastRecent, ViewOf;
      victims := {};
      EvictNone(table, expires);
      if toEvict == 0 {
        return;
      }
      var heap := Victims(toEvict);
      victims := heap.Keys;
      OldestOfAll(heap, Access(), toEvict);
      DeleteAll(heap);
    }

    /** Pops the candidates and deletes them. */
    method DeleteAll(victims: map<Str, int>)
      requires Valid() && victims.Keys <= table.Keys
      modifies this
      ensures Valid()
      ensures table == old(table) - victims.Keys && expires == old(expires) - ObjectsOf(old(table), victims.Keys)
    {
      hide Valid, ObjectsOf, ViewOf, Distinct;
      ghost var t, e := table, expires;
      ghost var done: set<Str> := {};
      EvictNone(t, e);
      var heap := victims;
      while heap != map[]
        invariant Valid() && done <= victims.Keys && heap.Keys == victims.Keys - done
        invariant table == t - done && expires == e - ObjectsOf(t, done)
        decreases |heap|
      {
        var k := Top(heap);
        EvictMore(t, e, done, k);
        DeleteKey(k, table[k]);
        heap := heap - {k};
        done := done + {k};
      }
      assert done == victims.Keys;
    }

    /** The bounded heap of the `n` least recently used keys. */
    method Victims(n: nat) returns (heap: map<Str, int>)
      requires n > 0
      ensures Oldest(heap, table.Keys, Access(), n)
    {
      hide Oldest;
      ghost var access := Access();
      heap := map[];
      var rest := table.Keys;
      OldestNone(access, n);
      assert table.Keys - rest == {};
      while rest != {}
        invariant rest <= table.Keys && Oldest(heap, table.Keys - rest, access, n)
        decreases |rest|
      {
        var k :| k in rest;
        assert table.Keys - rest + {k} == table.Keys - (rest - {k});
        heap := Offer(heap, k, table[k].lastAccessedAt, n, table.Keys - rest, access);
        rest := rest - {k};
      }
      assert table.Keys - {} == table.Keys;
    }

    /** The deadline of a key that is written: the old one is kept on request when it is positive,
        else the object's own counts. */
    ghost function NewDeadline(k: Str, obj: Obj, keepTTL: bool): Option<int>
      reads this
    {
      if keepTTL && k in table && table[k] in expires && expires[table[k]] > 0 then Some(expires[table[k]])
      else Deadline(expires, obj)
    }

    /** With KEEPTTL a deadline that is set stays; otherwise the one of the new object counts. */
    lemma NewDeadlineMeans(k: Str, obj: Obj, keepTTL: bool)
      ensures NewDeadline(k, obj, keepTTL) ==
                if keepTTL && k in View() && View()[k].deadline.Some? && View()[k].deadline.value > 0
                then View()[k].deadline
                else Deadline(expires, obj)
      ensures k in View() <==> k in table
    {
    }

    /** Stores an object that is not in the store yet under a key. A new key first evicts others
        when the store is full. */
    method Put(k: Str, obj: Obj, keepTTL: bool, now: int) returns (ghost victims: set<Str>)
      requires Valid() && obj !in table.Values
      modifies this, obj`lastAccessedAt
      ensures Valid() && k in table && table[k] == obj && obj.lastAccessedAt == now
      ensures victims <= old(table.Keys) && k !in victims
      ensures |victims| == if k in old(table) then 0 else ToEvict(old(|table|), maxKeys)
      ensures View() == (old(View()) - victims)[k := Item(obj.value, old(NewDeadline(k, obj, keepTTL)))]
      ensures LeastRecent(victims, old(Access()))
      ensures k !in old(table) && old(|table|) < maxKeys ==> victims == {}
      ensures k !in old(table) && old(|table|) == maxKeys > 1 ==> |old(table) - victims| == TargetCount(maxKeys)
      ensures k !in old(table) && old(|table|) == maxKeys == 1 ==> |victims| == 1
      ensures View()[k].deadline ==
                if keepTTL && k in old(View()) && old(View())[k].deadline.Some? && old(View())[k].deadline.value > 0
                then old(View())[k].deadline
                else old(Deadline(expires, obj))
    {
      hide Distinct, ViewOf, LeastRecent, ToEvict, TargetCount, NewDeadline, Deadline, Valid;
      victims := {};
      EvictNone(table, expires);
      NothingTaken(View());
      NewDeadlineMeans(k, obj, keepTTL);
      obj.lastAccessedAt := now;
      if k in table {
        Replace(k, obj, keepTTL);
      } else {
        victims := Insert(k, obj);
      }
    }

    method Replace(k: Str, obj: Obj, keepTTL: bool)
      requires Valid() && obj !in table.Values && k in table
      modifies this
      ensures Valid() && table == old(table)[k := obj]
      ensures View() == old(View())[k := Item(obj.value, old(NewDeadline(k, obj, keepTTL)))]
    {
      var current := table[k];
      if current in expires && keepTTL && expires[current] > 0 {
        expires := expires[obj := expires[current]];
      }
      expires := expires - {current};
      table := table[k := obj];
      ReplaceView(old(table), old(expires), k, obj, expires);
    }

    method Insert(k: Str, obj: Obj) returns (ghost victims: set<Str>)
      requires Valid() && obj !in table.Values && k !in table
      modifies this
      ensures Valid() && table == (old(table) - victims)[k := obj]
      ensures victims <= old(table.Keys) && |victims| == ToEvict(old(|table|), maxKeys)
      ensures View() == (old(View()) - victims)[k := Item(obj.value, old(Deadline(expires, obj)))]
      ensures LeastRecent(victims, old(Access()))
      ensures old(|table|) < maxKeys ==> victims == {}
      ensures old(|table|) == maxKeys > 1 ==> |old(table) - victims| == TargetCount(maxKeys)
      ensures old(|table|) == maxKeys == 1 ==> |victims| == 1
    {
      hide Distinct, ViewOf, ObjectsOf, LeastRecent, ToEvict;
      victims := {};
      EvictNone(table, expires);
      MakesRoom(numKeys, maxKeys);
      var evictCount := ToEvict(numKeys, maxKeys);
      if evictCount > 0 {
        victims := EvictVictims(evictCount);
      }
      LeftBy(old(table), victims);
      EvictsExactly(old(numKeys), maxKeys);
      EvictView(old(table), old(expires), victims, obj);
      InsertView(table, expires, k, obj);
      numKeys := numKeys + 1;
      table := table[k := obj];
    }

    /** A new object, with a deadline unless the duration is negative; nothing stored changes. */
    method NewObj(value: int, expDurationMs: int, now: int) returns (obj: Obj)
      requires Valid()
      modifies this
      ensures Valid() && fresh(obj) && obj.value == value && obj.lastAccessedAt == now
      ensures table == old(table) && View() == old(View())
      ensures expDurationMs >= 0 ==> Deadline(expires, obj) == Some(now + expDurationMs)
    {
      obj := new Obj(value, now);
      if expDurationMs >= 0 {
        SetUnixTimeExpiry(obj, now + expDurationMs);
      }
    }

    /** Sets the deadline of an object, and so of the key that holds it. */
    method SetUnixTimeExpiry(obj: Obj, deadline: int)
      requires Valid()
      modifies this
      ensures Valid() && table == old(table) && expires == old(expires)[obj := deadline]
      ensures forall k :: k in table ==>
        View()[k] == if table[k] == obj then Item(obj.value, Some(deadline)) else old(View())[k]
      ensures obj !in table.Values ==> View() == old(View())
    {
      expires := expires[obj := deadline];
    }

    method Del(k: Str) returns (deleted: bool)
      requires Valid()
      modifies this
      ensures Valid() && deleted == (k in old(table)) && View() == old(View()) - {k}
    {
      if k in table {
        DeleteKey(k, table[k]);
        return true;
      }
      assert View() - {k} == View();
      return false;
    }

    /** Removes exactly the expired keys. */
    method DeleteExpiredKeys(now: int)
      requires Valid()
      modifies this
      ensures Valid() && View() == Living(old(View()), now)
    {
      hide Distinct, ViewOf, Living, LivingBut;
      ghost var was := View();
      var rest := table.Keys;
      ViewKeys(table, expires);
      LivingStart(was, now);
      while rest != {}
        invariant Valid() && rest <= table.Keys && rest <= was.Keys && View() == LivingBut(was, now, rest)
        decreases |rest|
      {
        var k :| k in rest;
        ViewKeys(table, expires);
        LivingStep(was, now, rest, k);
        if HasExpired(table[k], now) {
          DeleteKey(k, table[k]);
        }
        rest := rest - {k};
      }
    }
  }

  predicate Alive(item: Item, now: int) {
    item.deadline.Some? ==> now < item.deadline.value
  }

  ghost function Living(view: map<Str, Item>, now: int): map<Str, Item> {
    map k | k in view && Alive(view[k], now) :: view[k]
  }

  ghost function LivingBut(view: map<Str, Item>, now: int, rest: set<Str>): map<Str, Item> {
    map k | k in view && (k in rest || Alive(view[k], now)) :: view[k]
  }

  lemma LivingStart(view: map<Str, Item>, now: int)
    ensures LivingBut(view, now, view.Keys) == view && LivingBut(view, now, {}) == Living(view, now)
  {
  }

  lemma LivingStep(view: map<Str, Item>, now: int, rest: set<Str>, k: Str)
    requires k in rest && k in view
    ensures LivingBut(view, now, rest - {k})
            == if Alive(view[k], now) then LivingBut(view, now, rest) else LivingBut(view, now, rest) - {k}
    ensures LivingBut(view, now, rest)[k] == view[k]
  {
  }

  lemma ViewKeys(table: map<Str, Obj>, expires: map<Obj, int>)
    ensures ViewOf(table, expires).Keys == table.Keys
    ensures forall k :: k in table ==> ViewOf(table, expires)[k] == Item(table[k].value, Deadline(expires, table[k]))
  {
  }
}
